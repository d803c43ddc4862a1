/** The map grid and the discrete decisions of the ray traversal of
    src/raycast-engine/raycast-engine.c. The map is a width x height grid of
    material codes stored row-major. A ray starts in the cell of its origin,
    with its quadrant fixing the direction it steps in along each axis, and
    visits grid-line crossings one at a time; at each crossing the two cells
    on either side of the line decide whether the ray leaves the map, hits a
    wall or passes on. The floating-point geometry (intercepts, tangents, the
    distance) is not modelled: the quadrant and, for every crossing the ray
    visits, the whole-cell index of the intercept are inputs. */
module RaycastEngine {
  import opened IntOps
  import opened RowMajor

  /** struct REMap: the dimensions and one `int` material per cell. */
  class REMap {
    const width: UInt32
    const height: UInt32
    const cells: array<Int32>

    predicate Valid()
    {
      cells.Length == width * height
    }

    /** re_map_create: room for the width * height cells, the area computed
        in 64 bits. The cells are not initialised. */
    constructor (w: UInt32, h: UInt32)
      ensures width == w && height == h && Valid() && fresh(cells)
    {
      width, height := w, h;
      ProductFits(w, h);
      cells := new Int32[w * h];
    }

    /** re_map_coords_in_bounds, on 64-bit coordinates: a position inside
        the map, whose row-major index then lies within the area. */
    predicate CoordsInBounds(x: int, y: int): (inside: bool)
      ensures inside <==> InBounds(width, height, x, y)
      ensures inside ==> 0 <= Index(width, x, y) < width * height
    {
      if x >= 0 && y >= 0 && x < width && y < height then
        IndexInRange(width, height, x, y);
        true
      else
        false
    }

    /** The index `y * width + x` that re_map_get_material and
        re_map_set_material compute in unsigned 32-bit arithmetic. For
        coordinates within bounds it addresses the cell array, even when the
        area exceeds 2^32 and the index wraps; when the area fits in 32 bits
        it is the row-major index itself. */
    function CellIndex(x: int, y: int): (i: UInt32)
      ensures CoordsInBounds(x, y) ==> i < width * height
      ensures CoordsInBounds(x, y) && width * height <= TWO_32 ==> i == Index(width, x, y)
    {
      if CoordsInBounds(x, y) then
        IndexInRange(width, height, x, y);
        WrapU32(Index(width, x, y))
      else
        WrapU32(Index(width, x, y))
    }

    /** The index `y * width + x` computed in 64 bits, as re_map_create
        computes the area: for every position within bounds it is the
        row-major index, whatever the area. */
    function CellIndexWide(x: UInt32, y: UInt32): (i: UInt64)
      ensures CoordsInBounds(x, y) ==> i == Index(width, x, y) < width * height
    {
      if CoordsInBounds(x, y) then
        ProductFits(width, height);
        Index(width, x, y)
      else
        WrapU64(Index(width, x, y))
    }

    /** With the 64-bit index, distinct positions within bounds have distinct
        cells for every map, with no bound on the area. */
    lemma WideIndicesDiffer(x: UInt32, y: UInt32, x': UInt32, y': UInt32)
      requires CoordsInBounds(x, y) && CoordsInBounds(x', y') && (x != x' || y != y')
      ensures CellIndexWide(x, y) != CellIndexWide(x', y')
    {
      if CellIndexWide(x, y) == CellIndexWide(x', y') {
        IndexInjective(width, height, x, y, x', y');
      }
    }

    /** re_map_get_material. The source does no bounds check; the index has to
        lie within the cell array. */
    function GetMaterial(x: UInt32, y: UInt32): (material: Int32)
      reads this, cells
      requires Valid() && CellIndex(x, y) < cells.Length
      ensures CoordsInBounds(x, y) && width * height <= TWO_32 ==> material == cells[Index(width, x, y)]
    {
      cells[CellIndex(x, y)]
    }

    /** re_map_set_material: one cell changes. Read back, the cell holds the
        new material; when the area fits in 32 bits no other position within
        bounds reads differently. */
    method SetMaterial(x: UInt32, y: UInt32, material: Int32)
      requires Valid() && CellIndex(x, y) < cells.Length
      modifies cells
      ensures cells[..] == old(cells[..])[CellIndex(x, y) := material]
      ensures GetMaterial(x, y) == material
      ensures CoordsInBounds(x, y) && width * height <= TWO_32 ==>
        forall x': UInt32, y': UInt32 :: CoordsInBounds(x', y') && (x' != x || y' != y) ==>
          GetMaterial(x', y') == old(GetMaterial(x', y'))
    {
      cells[CellIndex(x, y)] := material;
      if CoordsInBounds(x, y) && width * height <= TWO_32 {
        forall x': UInt32, y': UInt32 | CoordsInBounds(x', y') && (x' != x || y' != y)
          ensures GetMaterial(x', y') == old(GetMaterial(x', y'))
        {
          IndicesDiffer(x, y, x', y');
        }
      }
    }

    /** With the area within 32 bits, distinct positions within bounds have
        distinct cells. */
    lemma IndicesDiffer(x: int, y: int, x': int, y': int)
      requires width * height <= TWO_32
      requires CoordsInBounds(x, y) && CoordsInBounds(x', y') && (x != x' || y != y')
      ensures CellIndex(x, y) != CellIndex(x', y')
    {
      if CellIndex(x, y) == CellIndex(x', y') {
        IndexInjective(width, height, x, y, x', y');
      }
    }

    /** re_map_fill: every one of the width * height cells, counted with a
        64-bit index, gets the material. */
    method Fill(material: Int32)
      requires Valid()
      modifies cells
      ensures forall i :: 0 <= i < cells.Length ==> cells[i] == material
      ensures forall x: UInt32, y: UInt32 :: CoordsInBounds(x, y) ==> GetMaterial(x, y) == material
    {
      ProductFits(width, height);
      var area: UInt64 := width * height;
      var index: UInt64 := 0;
      while index < area
        invariant 0 <= index <= area == cells.Length
        invariant forall i :: 0 <= i < index ==> cells[i] == material
      {
        cells[index] := material;
        index := index + 1;
      }
      forall x: UInt32, y: UInt32 | CoordsInBounds(x, y)
        ensures GetMaterial(x, y) == material
      {
        assert CellIndex(x, y) < cells.Length;
      }
    }
  }

  /** With width 2^32 - 1 and height 2, cell (1, 1) has row-major index 2^32,
      which wraps onto the index of cell (0, 0). */
  lemma CellIndexCollision(grid: REMap)
    requires grid.width == TWO_32 - 1 && grid.height == 2
    ensures grid.CoordsInBounds(0, 0) && grid.CoordsInBounds(1, 1)
    ensures Index(grid.width, 1, 1) == TWO_32 && grid.CellIndex(1, 1) == grid.CellIndex(0, 0)
  {
    assert Index(grid.width, 1, 1) == TWO_32;
  }

  /** The same two cells keep distinct indices when the index is computed in
      64 bits. */
  lemma CellIndexCollisionAvoided(grid: REMap)
    requires grid.width == TWO_32 - 1 && grid.height == 2
    ensures grid.CellIndexWide(1, 1) == TWO_32 && grid.CellIndexWide(0, 0) == 0
  {
    assert grid.CoordsInBounds(1, 1) && grid.CoordsInBounds(0, 0);
  }

  // ===========================================================================
  // The quadrant setup of re_raycast

  /** The quadrant of the ray's angle: 1 for [0, pi/2), 2 for [pi/2, pi),
      3 for [pi, 3pi/2), 4 for [3pi/2, 2pi). An angle in none of the last
      three behaves as quadrant 1. */
  type Quadrant = q: int | 1 <= q <= 4 witness 1

  datatype RaySetup = RaySetup(tileStepX: Int32, tileStepY: Int32, checkX: Int32, checkY: Int32)

  /** The tile steps start at 1 and the grid lines to check at the origin
      cell's index plus 1, in int32; in quadrants 2 and 3 the x step is negated
      and the x line moved back by it, in quadrants 3 and 4 the same for y. */
  function QuadrantSetup(originXWhole: Int32, originYWhole: Int32, quadrant: Quadrant): (r: RaySetup)
    ensures r.tileStepX == -1 <==> quadrant == 2 || quadrant == 3
    ensures r.tileStepY == -1 <==> quadrant == 3 || quadrant == 4
    ensures r.tileStepX == 1 || r.tileStepX == -1
    ensures r.tileStepY == 1 || r.tileStepY == -1
    ensures r.checkX == if r.tileStepX == -1 then originXWhole else WrapI32(originXWhole + 1)
    ensures r.checkY == if r.tileStepY == -1 then originYWhole else WrapI32(originYWhole + 1)
  {
    var reverseX := quadrant == 2 || quadrant == 3;
    var reverseY := quadrant == 3 || quadrant == 4;
    var tileStepX := if reverseX then -1 else 1;
    var tileStepY := if reverseY then -1 else 1;
    var checkX := WrapI32(originXWhole + 1);
    var checkY := WrapI32(originYWhole + 1);
    StepBack(originXWhole, checkX);
    StepBack(originYWhole, checkY);
    RaySetup(tileStepX, tileStepY,
             if reverseX then WrapI32(checkX + tileStepX) else checkX,
             if reverseY then WrapI32(checkY + tileStepY) else checkY)
  }

  /** Adding 1 and then -1 in int32 gives back the original value, overflow
      included. */
  lemma StepBack(origin: Int32, next: Int32)
    requires next == WrapI32(origin + 1)
    ensures WrapI32(next + -1) == origin
  {
    WrappedAddSubtract(origin, 1, next, WrapI32(next + -1), TWO_32);
    CongruentInRange(WrapI32(next + -1), origin, -TWO_31, TWO_32);
  }

  // ===========================================================================
  // Classifying one crossing

  datatype Verdict = OutOfBounds | Hit(material: Int32) | Pass

  /** The four tests re_raycast makes at a crossing, in order: the near cell
      out of bounds, the far cell out of bounds, the near cell not
      transparent, and the far cell not transparent when `farGuard` holds;
      otherwise the ray passes. */
  function Classify(grid: REMap, nearX: int, nearY: int, farX: int, farY: int, farGuard: bool,
                    transparent: Int32): Verdict
    reads grid, grid.cells
    requires grid.Valid()
  {
    if !grid.CoordsInBounds(nearX, nearY) then OutOfBounds
    else if !grid.CoordsInBounds(farX, farY) then OutOfBounds
    else if grid.GetMaterial(nearX, nearY) != transparent then Hit(grid.GetMaterial(nearX, nearY))
    else if farGuard && grid.GetMaterial(farX, farY) != transparent then Hit(grid.GetMaterial(farX, farY))
    else Pass
  }

  /** What Classify decides, stated per outcome. The far-side guard never
      decides anything once the far cell is known to be within bounds. */
  predicate Classified(grid: REMap, nearX: int, nearY: int, farX: int, farY: int, transparent: Int32, v: Verdict)
    reads grid, grid.cells
    requires grid.Valid()
  {
    && (v.OutOfBounds? <==> !(grid.CoordsInBounds(nearX, nearY) && grid.CoordsInBounds(farX, farY)))
    && (v.Hit? ==>
          && grid.CoordsInBounds(nearX, nearY) && grid.CoordsInBounds(farX, farY)
          && v.material != transparent
          && v.material == (if grid.GetMaterial(nearX, nearY) != transparent
                            then grid.GetMaterial(nearX, nearY) else grid.GetMaterial(farX, farY)))
    && (v.Pass? <==>
          && grid.CoordsInBounds(nearX, nearY) && grid.CoordsInBounds(farX, farY)
          && grid.GetMaterial(nearX, nearY) == transparent && grid.GetMaterial(farX, farY) == transparent)
  }

  /** The crossing of the horizontal grid line `checkY` at column `cx`: the
      near cell is (cx, checkY), the far cell (cx, checkY - 1), and the far
      test carries the guard `checkY > 0`. `checkY - 1` is only computed once
      checkY is within bounds, so it cannot overflow. */
  function HorizontalCrossing(grid: REMap, cx: Int32, checkY: Int32, transparent: Int32): (v: Verdict)
    reads grid, grid.cells
    requires grid.Valid()
    ensures Classified(grid, cx, checkY, cx, checkY - 1, transparent, v)
  {
    Classify(grid, cx, checkY, cx, checkY - 1, checkY > 0, transparent)
  }

  /** The crossing of the vertical grid line `checkX` at row `cy`: the near
      cell is (checkX, cy), the far cell (checkX - 1, cy), and the far test
      carries the guard `checkX > 0`. */
  function VerticalCrossing(grid: REMap, checkX: Int32, cy: Int32, transparent: Int32): (v: Verdict)
    reads grid, grid.cells
    requires grid.Valid()
    ensures Classified(grid, checkX, cy, checkX - 1, cy, transparent, v)
  {
    Classify(grid, checkX, cy, checkX - 1, cy, checkX > 0, transparent)
  }

  // ===========================================================================
  // The traversal

  /** The next crossing the ray visits, as the floating-point comparisons of
      re_raycast choose it, with the intercept converted to a whole cell index
      (`(int32_t) x_intercept` or `(int32_t) y_intercept`). */
  datatype Probe = HorizontalLine(cx: Int32) | VerticalLine(cy: Int32)

  /** The integer locals of re_raycast that the traversal updates. */
  datatype RayState = RayState(checkX: Int32, checkY: Int32, foundHoriz: bool, foundVert: bool,
                               outOfBounds: bool, collided: Int32)
  {
    predicate Searching()
    {
      !foundHoriz && !foundVert && !outOfBounds
    }
  }

  /** The state before the first crossing: nothing found, and the collided
      material set to the out-of-bounds material. */
  function StartState(setup: RaySetup, outOfBoundsMaterial: Int32): RayState
  {
    RayState(setup.checkX, setup.checkY, false, false, false, outOfBoundsMaterial)
  }

  /** One pass of the inner loop for the crossing `probe`. */
  function Visit(grid: REMap, st: RayState, probe: Probe, setup: RaySetup,
                 transparent: Int32, outOfBoundsMaterial: Int32): RayState
    reads grid, grid.cells
    requires grid.Valid()
  {
    match probe
    case HorizontalLine(cx) =>
      (match HorizontalCrossing(grid, cx, st.checkY, transparent)
       case OutOfBounds => st.(foundHoriz := true, outOfBounds := true, collided := outOfBoundsMaterial)
       case Hit(m) => st.(foundHoriz := true, collided := m)
       case Pass => st.(checkY := WrapI32(st.checkY + setup.tileStepY)))
    case VerticalLine(cy) =>
      match VerticalCrossing(grid, st.checkX, cy, transparent)
      case OutOfBounds => st.(foundVert := true, outOfBounds := true, collided := outOfBoundsMaterial)
      case Hit(m) => st.(foundVert := true, collided := m)
      case Pass => st.(checkX := WrapI32(st.checkX + setup.tileStepX))
  }

  /** The state after visiting the crossings of `probes` in order, stopping
      at the first that ends the search. */
  function Trace(grid: REMap, st: RayState, probes: seq<Probe>, setup: RaySetup,
                 transparent: Int32, outOfBoundsMaterial: Int32): RayState
    reads grid, grid.cells
    requires grid.Valid()
    decreases |probes|
  {
    if |probes| == 0 || !st.Searching() then st
    else Trace(grid, Visit(grid, st, probes[0], setup, transparent, outOfBoundsMaterial), probes[1..],
               setup, transparent, outOfBoundsMaterial)
  }

  /** The integer part of re_raycast: the quadrant setup, then a loop over
      the crossings the ray visits, classifying each and stepping the grid
      line to check past every crossing the ray passes. The result is the
      collided material and how the search ended. */
  method Raycast(grid: REMap, originXWhole: Int32, originYWhole: Int32, quadrant: Quadrant,
                 probes: seq<Probe>, transparent: Int32, outOfBoundsMaterial: Int32)
    returns (collided: Int32, foundHoriz: bool, foundVert: bool, outOfBounds: bool)
    requires grid.Valid()
    ensures var setup := QuadrantSetup(originXWhole, originYWhole, quadrant);
      var r := Trace(grid, StartState(setup, outOfBoundsMaterial), probes, setup, transparent, outOfBoundsMaterial);
      collided == r.collided && foundHoriz == r.foundHoriz && foundVert == r.foundVert && outOfBounds == r.outOfBounds
  {
    var setup := QuadrantSetup(originXWhole, originYWhole, quadrant);
    var checkX, checkY := setup.checkX, setup.checkY;
    foundHoriz, foundVert, outOfBounds := false, false, false;
    collided := outOfBoundsMaterial;
    ghost var start := StartState(setup, outOfBoundsMaterial);
    var index := 0;
    while index < |probes| && !foundHoriz && !foundVert && !outOfBounds
      invariant 0 <= index <= |probes|
      invariant var st := RayState(checkX, checkY, foundHoriz, foundVert, outOfBounds, collided);
        Trace(grid, st, probes[index..], setup, transparent, outOfBoundsMaterial)
          == Trace(grid, start, probes, setup, transparent, outOfBoundsMaterial)
    {
      match probes[index] {
        case HorizontalLine(cx) =>
          var verdict := HorizontalCrossing(grid, cx, checkY, transparent);
          match verdict {
            case OutOfBounds =>
              foundHoriz, outOfBounds := true, true;
              collided := outOfBoundsMaterial;
            case Hit(m) =>
              foundHoriz := true;
              collided := m;
            case Pass =>
              checkY := WrapI32(checkY + setup.tileStepY);
          }
        case VerticalLine(cy) =>
          var verdict := VerticalCrossing(grid, checkX, cy, transparent);
          match verdict {
            case OutOfBounds =>
              foundVert, outOfBounds := true, true;
              collided := outOfBoundsMaterial;
            case Hit(m) =>
              foundVert := true;
              collided := m;
            case Pass =>
              checkX := WrapI32(checkX + setup.tileStepX);
          }
      }
      assert probes[index..][1..] == probes[index + 1..];
      index := index + 1;
    }
  }

  /** How a traversal ends: never with both a horizontal and a vertical hit
      (the vertical phase does not run once a horizontal wall is found); out
      of bounds only after a find, and then with the out-of-bounds material;
      with the out-of-bounds material still in place when nothing was found;
      and otherwise with a non-transparent material read from a cell within
      bounds. */
  lemma {:induction false} TraceOutcome(grid: REMap, st: RayState, probes: seq<Probe>, setup: RaySetup,
                                        transparent: Int32, outOfBoundsMaterial: Int32)
    requires grid.Valid() && st.Searching() && st.collided == outOfBoundsMaterial
    decreases |probes|
    ensures var r := Trace(grid, st, probes, setup, transparent, outOfBoundsMaterial);
      && !(r.foundHoriz && r.foundVert)
      && (r.outOfBounds ==> (r.foundHoriz || r.foundVert) && r.collided == outOfBoundsMaterial)
      && (!r.foundHoriz && !r.foundVert ==> r.collided == outOfBoundsMaterial && !r.outOfBounds)
      && ((r.foundHoriz || r.foundVert) && !r.outOfBounds ==>
            r.collided != transparent &&
            exists x: UInt32, y: UInt32 :: grid.CoordsInBounds(x, y) && grid.GetMaterial(x, y) == r.collided)
  {
    if |probes| > 0 {
      var st' := Visit(grid, st, probes[0], setup, transparent, outOfBoundsMaterial);
      VisitOutcome(grid, st, probes[0], setup, transparent, outOfBoundsMaterial);
      if st'.Searching() {
        TraceOutcome(grid, st', probes[1..], setup, transparent, outOfBoundsMaterial);
      }
    }
  }

  /** The same for a single crossing. */
  lemma VisitOutcome(grid: REMap, st: RayState, probe: Probe, setup: RaySetup,
                     transparent: Int32, outOfBoundsMaterial: Int32)
    requires grid.Valid() && st.Searching() && st.collided == outOfBoundsMaterial
    ensures var r := Visit(grid, st, probe, setup, transparent, outOfBoundsMaterial);
      && !(r.foundHoriz && r.foundVert)
      && (r.outOfBounds ==> (r.foundHoriz || r.foundVert) && r.collided == outOfBoundsMaterial)
      && (!r.foundHoriz && !r.foundVert ==> r.collided == outOfBoundsMaterial && !r.outOfBounds)
      && ((r.foundHoriz || r.foundVert) && !r.outOfBounds ==>
            r.collided != transparent &&
            exists x: UInt32, y: UInt32 :: grid.CoordsInBounds(x, y) && grid.GetMaterial(x, y) == r.collided)
  {
    match probe
    case HorizontalLine(cx) =>
      var v := HorizontalCrossing(grid, cx, st.checkY, transparent);
      if v.Hit? {
        if grid.GetMaterial(cx, st.checkY) != transparent {
          assert grid.CoordsInBounds(cx, st.checkY) && grid.GetMaterial(cx, st.checkY) == v.material;
        } else {
          assert grid.CoordsInBounds(cx, st.checkY - 1) && grid.GetMaterial(cx, st.checkY - 1) == v.material;
        }
      }
    case VerticalLine(cy) =>
      var v := VerticalCrossing(grid, st.checkX, cy, transparent);
      if v.Hit? {
        if grid.GetMaterial(st.checkX, cy) != transparent {
          assert grid.CoordsInBounds(st.checkX, cy) && grid.GetMaterial(st.checkX, cy) == v.material;
        } else {
          assert grid.CoordsInBounds(st.checkX - 1, cy) && grid.GetMaterial(st.checkX - 1, cy) == v.material;
        }
      }
  }

  /** The probes of a run of horizontal-line crossings at the given columns. */
  function HorizontalRun(cxs: seq<Int32>): (probes: seq<Probe>)
    ensures |probes| == |cxs| && forall k :: 0 <= k < |cxs| ==> probes[k] == HorizontalLine(cxs[k])
  {
    if |cxs| == 0 then [] else [HorizontalLine(cxs[0])] + HorizontalRun(cxs[1..])
  }

  /** The grid line checked after k passes from line `checkY` (or, for a
      vertical run, `checkX`): each pass adds the tile step in int32. */
  function LineAfter(checkY: Int32, step: Int32, k: nat): Int32
    decreases k
  {
    if k == 0 then checkY else LineAfter(WrapI32(checkY + step), step, k - 1)
  }

  /** After k passes the line is `checkY + k * step`, reduced to int32. */
  lemma {:induction false} LineAfterWraps(checkY: Int32, step: Int32, k: nat)
    ensures LineAfter(checkY, step, k) == WrapI32(checkY + k * step)
    decreases k
  {
    if k == 0 {
      WrapInRange(checkY);
    } else {
      LineAfterWraps(WrapI32(checkY + step), step, k - 1);
      WrapShift(checkY, step, k - 1);
    }
  }

  /** The ray passes the horizontal-line crossing at column cxs[k], found on
      the line reached after k passes, for every k. */
  predicate PassesFrom(grid: REMap, cxs: seq<Int32>, checkY: Int32, step: Int32, transparent: Int32)
    reads grid, grid.cells
    requires grid.Valid()
  {
    forall k :: 0 <= k < |cxs| ==> HorizontalCrossing(grid, cxs[k], LineAfter(checkY, step, k), transparent) == Pass
  }

  /** While the ray passes horizontal-line crossings, the line it checks moves
      by one tile step per crossing and nothing else changes (by
      LineAfterWraps, after k passes it is `checkY + k * tileStepY` in int32). */
  lemma {:induction false} HorizontalPasses(grid: REMap, st: RayState, cxs: seq<Int32>, setup: RaySetup,
                                            transparent: Int32, outOfBoundsMaterial: Int32)
    requires grid.Valid() && st.Searching()
    requires PassesFrom(grid, cxs, st.checkY, setup.tileStepY, transparent)
    ensures Trace(grid, st, HorizontalRun(cxs), setup, transparent, outOfBoundsMaterial)
      == st.(checkY := LineAfter(st.checkY, setup.tileStepY, |cxs|))
    decreases |cxs|
  {
    if |cxs| > 0 {
      PassesTail(grid, cxs, st.checkY, setup.tileStepY, transparent);
      var st' := st.(checkY := WrapI32(st.checkY + setup.tileStepY));
      HorizontalPasses(grid, st', cxs[1..], setup, transparent, outOfBoundsMaterial);
      PassThenRest(grid, st, cxs, setup, transparent, outOfBoundsMaterial);
    }
  }

  /** One pass followed by the passes of the rest of the run. */
  lemma PassThenRest(grid: REMap, st: RayState, cxs: seq<Int32>, setup: RaySetup,
                     transparent: Int32, outOfBoundsMaterial: Int32)
    requires grid.Valid() && st.Searching() && |cxs| > 0
    requires HorizontalCrossing(grid, cxs[0], st.checkY, transparent) == Pass
    requires var st' := st.(checkY := WrapI32(st.checkY + setup.tileStepY));
      Trace(grid, st', HorizontalRun(cxs[1..]), setup, transparent, outOfBoundsMaterial)
      == st'.(checkY := LineAfter(st'.checkY, setup.tileStepY, |cxs[1..]|))
    ensures Trace(grid, st, HorizontalRun(cxs), setup, transparent, outOfBoundsMaterial)
      == st.(checkY := LineAfter(st.checkY, setup.tileStepY, |cxs|))
  {
    var run := HorizontalRun(cxs);
    assert run[0] == HorizontalLine(cxs[0]) && run[1..] == HorizontalRun(cxs[1..]);
    PassVisit(grid, st, cxs[0], setup, transparent, outOfBoundsMaterial);
    TraceStep(grid, st, run, setup, transparent, outOfBoundsMaterial);
  }

  /** A search still under way visits the first crossing and goes on with the rest. */
  lemma TraceStep(grid: REMap, st: RayState, probes: seq<Probe>, setup: RaySetup,
                  transparent: Int32, outOfBoundsMaterial: Int32)
    requires grid.Valid() && st.Searching() && |probes| > 0
    ensures Trace(grid, st, probes, setup, transparent, outOfBoundsMaterial)
      == Trace(grid, Visit(grid, st, probes[0], setup, transparent, outOfBoundsMaterial), probes[1..],
               setup, transparent, outOfBoundsMaterial)
  {
  }

  /** A crossing the ray passes moves the checked horizontal line by one tile step. */
  lemma PassVisit(grid: REMap, st: RayState, cx: Int32, setup: RaySetup,
                  transparent: Int32, outOfBoundsMaterial: Int32)
    requires grid.Valid() && HorizontalCrossing(grid, cx, st.checkY, transparent) == Pass
    ensures Visit(grid, st, HorizontalLine(cx), setup, transparent, outOfBoundsMaterial)
      == st.(checkY := WrapI32(st.checkY + setup.tileStepY))
  {
  }

  /** Passing the first crossing of a run leaves a run that starts one tile
      step further on. */
  lemma PassesTail(grid: REMap, cxs: seq<Int32>, checkY: Int32, step: Int32, transparent: Int32)
    requires grid.Valid() && |cxs| > 0 && PassesFrom(grid, cxs, checkY, step, transparent)
    ensures HorizontalCrossing(grid, cxs[0], checkY, transparent) == Pass
    ensures PassesFrom(grid, cxs[1..], WrapI32(checkY + step), step, transparent)
  {
    assert HorizontalCrossing(grid, cxs[0], LineAfter(checkY, step, 0), transparent) == Pass;
    forall k | 0 <= k < |cxs| - 1
      ensures HorizontalCrossing(grid, cxs[1..][k], LineAfter(WrapI32(checkY + step), step, k), transparent) == Pass
    {
      assert HorizontalCrossing(grid, cxs[k + 1], LineAfter(checkY, step, k + 1), transparent) == Pass;
    }
  }

  /** The probes of a run of vertical-line crossings at the given rows. */
  function VerticalRun(cys: seq<Int32>): (probes: seq<Probe>)
    ensures |probes| == |cys| && forall k :: 0 <= k < |cys| ==> probes[k] == VerticalLine(cys[k])
  {
    if |cys| == 0 then [] else [VerticalLine(cys[0])] + VerticalRun(cys[1..])
  }

  /** The ray passes the vertical-line crossing at row cys[k], found on the
      line reached after k passes, for every k. */
  predicate VerticalPassesFrom(grid: REMap, cys: seq<Int32>, checkX: Int32, step: Int32, transparent: Int32)
    reads grid, grid.cells
    requires grid.Valid()
  {
    forall k :: 0 <= k < |cys| ==> VerticalCrossing(grid, LineAfter(checkX, step, k), cys[k], transparent) == Pass
  }

  /** While the ray passes vertical-line crossings, the line it checks moves
      by one tile step per crossing and nothing else changes (by
      LineAfterWraps, after k passes it is `checkX + k * tileStepX` in int32). */
  lemma {:induction false} VerticalPasses(grid: REMap, st: RayState, cys: seq<Int32>, setup: RaySetup,
                                          transparent: Int32, outOfBoundsMaterial: Int32)
    requires grid.Valid() && st.Searching()
    requires VerticalPassesFrom(grid, cys, st.checkX, setup.tileStepX, transparent)
    ensures Trace(grid, st, VerticalRun(cys), setup, transparent, outOfBoundsMaterial)
      == st.(checkX := LineAfter(st.checkX, setup.tileStepX, |cys|))
    decreases |cys|
  {
    if |cys| > 0 {
      VerticalPassesTail(grid, cys, st.checkX, setup.tileStepX, transparent);
      var st' := st.(checkX := WrapI32(st.checkX + setup.tileStepX));
      VerticalPasses(grid, st', cys[1..], setup, transparent, outOfBoundsMaterial);
      VerticalPassThenRest(grid, st, cys, setup, transparent, outOfBoundsMaterial);
    }
  }

  /** One vertical pass followed by the passes of the rest of the run. */
  lemma VerticalPassThenRest(grid: REMap, st: RayState, cys: seq<Int32>, setup: RaySetup,
                             transparent: Int32, outOfBoundsMaterial: Int32)
    requires grid.Valid() && st.Searching() && |cys| > 0
    requires VerticalCrossing(grid, st.checkX, cys[0], transparent) == Pass
    requires var st' := st.(checkX := WrapI32(st.checkX + setup.tileStepX));
      Trace(grid, st', VerticalRun(cys[1..]), setup, transparent, outOfBoundsMaterial)
      == st'.(checkX := LineAfter(st'.checkX, setup.tileStepX, |cys[1..]|))
    ensures Trace(grid, st, VerticalRun(cys), setup, transparent, outOfBoundsMaterial)
      == st.(checkX := LineAfter(st.checkX, setup.tileStepX, |cys|))
  {
    var run := VerticalRun(cys);
    assert run[0] == VerticalLine(cys[0]) && run[1..] == VerticalRun(cys[1..]);
    VerticalPassVisit(grid, st, cys[0], setup, transparent, outOfBoundsMaterial);
    TraceStep(grid, st, run, setup, transparent, outOfBoundsMaterial);
  }

  /** A crossing the ray passes moves the checked vertical line by one tile step. */
  lemma VerticalPassVisit(grid: REMap, st: RayState, cy: Int32, setup: RaySetup,
                          transparent: Int32, outOfBoundsMaterial: Int32)
    requires grid.Valid() && VerticalCrossing(grid, st.checkX, cy, transparent) == Pass
    ensures Visit(grid, st, VerticalLine(cy), setup, transparent, outOfBoundsMaterial)
      == st.(checkX := WrapI32(st.checkX + setup.tileStepX))
  {
  }

  /** Passing the first crossing of a vertical run leaves a run that starts
      one tile step further on. */
  lemma VerticalPassesTail(grid: REMap, cys: seq<Int32>, checkX: Int32, step: Int32, transparent: Int32)
    requires grid.Valid() && |cys| > 0 && VerticalPassesFrom(grid, cys, checkX, step, transparent)
    ensures VerticalCrossing(grid, checkX, cys[0], transparent) == Pass
    ensures VerticalPassesFrom(grid, cys[1..], WrapI32(checkX + step), step, transparent)
  {
    assert VerticalCrossing(grid, LineAfter(checkX, step, 0), cys[0], transparent) == Pass;
    forall k | 0 <= k < |cys| - 1
      ensures VerticalCrossing(grid, LineAfter(WrapI32(checkX + step), step, k), cys[1..][k], transparent) == Pass
    {
      assert VerticalCrossing(grid, LineAfter(checkX, step, k + 1), cys[k + 1], transparent) == Pass;
    }
  }

  /** A value already in int32 range is its own wrap. */
  lemma WrapInRange(x: Int32)
    ensures WrapI32(x) == x
  {
    CongruentInRange(WrapI32(x), x, -TWO_31, TWO_32);
  }

  /** Wrapping after one step and then taking n - 1 more is wrapping after n. */
  lemma WrapSteps(a: int, step: int, n: int)
    requires n >= 1
    ensures WrapI32(WrapI32(a + step) + (n - 1) * step) == WrapI32(a + n * step)
  {
    WrapShift(a, step, n - 1);
    assert (n - 1 + 1) * step == n * step;
  }

  /** Wrapping after one step and then taking k more is wrapping after k + 1. */
  lemma WrapShift(a: int, step: int, k: int)
    ensures WrapI32(WrapI32(a + step) + k * step) == WrapI32(a + (k + 1) * step)
  {
    var x, y := WrapI32(a + step) + k * step, a + (k + 1) * step;
    CongruentAdd(WrapI32(a + step), a + step, k * step, k * step, TWO_32);
    assert x == WrapI32(a + step) + k * step && y == (a + step) + k * step;
    CongruentTransitive(WrapI32(x), x, y, TWO_32);
    CongruentSymmetric(WrapI32(y), y, TWO_32);
    CongruentTransitive(WrapI32(x), y, WrapI32(y), TWO_32);
    CongruentInRange(WrapI32(x), WrapI32(y), -TWO_31, TWO_32);
  }
}
