/** The values behind the maze generator of src/maze-gen/maze-gen.c: cells
    with a visited flag and a four-bit wall mask, the geometry of a width x
    height grid stored row-major, and the facts the depth-first backtracker
    keeps true, stated over the cell sequence. */
module MazeGrid {
  import opened IntOps
  import opened RowMajor

  // ===========================================================================
  // Walls and cells

  /** A wall of a cell, in the order of enum MazeCellWall. */
  type MazeCellWall = w: int | 0 <= w < 4

  const TOP: MazeCellWall := 0
  const RIGHT: MazeCellWall := 1
  const BOTTOM: MazeCellWall := 2
  const LEFT: MazeCellWall := 3

  /** Wall `w` as seen from the cell across it. */
  function Opposite(w: MazeCellWall): MazeCellWall
  {
    (w + 2) % 4
  }

  datatype MazeCell = MazeCell(visited: bool, walls: bv4)

  /** The cell maze_init writes: unvisited, and `~0` stored in the four-bit
      field, so all four walls. */
  const PRISTINE: MazeCell := MazeCell(false, !0)

  function WallBit(w: MazeCellWall): bv4
  {
    (1 as bv4) << w
  }

  /** The wall is present when bit `wall` of the mask is set. */
  function CellHasWall(cell: MazeCell, wall: MazeCellWall): (present: bool)
    ensures present <==> (cell.walls >> wall) & 1 == 1
  {
    cell.walls & WallBit(wall) != 0
  }

  /** Sets the bit of `wall` and leaves the other bits and the flag alone. */
  function CellAddWall(cell: MazeCell, wall: MazeCellWall): (r: MazeCell)
    ensures r.visited == cell.visited
    ensures CellHasWall(r, wall)
    ensures forall other: MazeCellWall :: other != wall ==> CellHasWall(r, other) == CellHasWall(cell, other)
  {
    cell.(walls := cell.walls | WallBit(wall))
  }

  /** Clears the bit of `wall` and leaves the other bits and the flag alone. */
  function ClearCellWall(cell: MazeCell, wall: MazeCellWall): (r: MazeCell)
    ensures r.visited == cell.visited
    ensures !CellHasWall(r, wall)
    ensures forall other: MazeCellWall :: other != wall ==> CellHasWall(r, other) == CellHasWall(cell, other)
  {
    cell.(walls := cell.walls & !WallBit(wall))
  }

  /** The four wall bits are the whole mask, and the pristine mask is 15 with
      every wall present. */
  lemma WallsDetermineMask(a: MazeCell, b: MazeCell)
    requires forall w: MazeCellWall :: CellHasWall(a, w) == CellHasWall(b, w)
    ensures a.walls == b.walls
    ensures PRISTINE.walls == 15 && forall w: MazeCellWall :: CellHasWall(PRISTINE, w)
  {
    assert CellHasWall(a, 0) == CellHasWall(b, 0);
    assert CellHasWall(a, 1) == CellHasWall(b, 1);
    assert CellHasWall(a, 2) == CellHasWall(b, 2);
    assert CellHasWall(a, 3) == CellHasWall(b, 3);
  }

  // ===========================================================================
  // Grid geometry

  /** The cell on the other side of `wall` (it may lie outside the grid). */
  function NeighborPosition(col: int, row: int, wall: MazeCellWall): (p: (int, int))
    ensures Abs(p.0 - col) + Abs(p.1 - row) == 1
    ensures (p.0 == col + 1 <==> wall == RIGHT) && (p.0 == col - 1 <==> wall == LEFT)
    ensures (p.1 == row + 1 <==> wall == BOTTOM) && (p.1 == row - 1 <==> wall == TOP)
  {
    (col + (if wall == RIGHT then 1 else 0) - (if wall == LEFT then 1 else 0),
     row + (if wall == BOTTOM then 1 else 0) - (if wall == TOP then 1 else 0))
  }

  /** Crossing a wall and then its opposite leads back. */
  lemma NeighborOfNeighbor(col: int, row: int, wall: MazeCellWall)
    ensures var p := NeighborPosition(col, row, wall);
      NeighborPosition(p.0, p.1, Opposite(wall)) == (col, row)
  {
  }

  /** The cell at a position in a snapshot of the cell array. */
  ghost function CellAt(s: seq<MazeCell>, width: int, height: int, col: int, row: int): MazeCell
    requires |s| == width * height && InBounds(width, height, col, row)
  {
    IndexInRange(width, height, col, row);
    s[Index(width, col, row)]
  }

  /** An internal edge of the grid: the one between (col, row) and
      (col + 1, row), or the one between (col, row) and (col, row + 1). */
  datatype Edge = RightOf(col: int, row: int) | Below(col: int, row: int)

  /** The edge a cell's wall lies on. */
  function EdgeAt(col: int, row: int, wall: MazeCellWall): Edge
  {
    if wall == TOP then Below(col, row - 1)
    else if wall == RIGHT then RightOf(col, row)
    else if wall == BOTTOM then Below(col, row)
    else RightOf(col - 1, row)
  }

  /** A wall and its opposite on the neighbour lie on one edge, and no other
      wall of any cell does. */
  lemma EdgeAtShared(col: int, row: int, wall: MazeCellWall, col': int, row': int, wall': MazeCellWall)
    ensures var p := NeighborPosition(col, row, wall);
      EdgeAt(col, row, wall) == EdgeAt(col', row', wall')
      <==> (col', row', wall') == (col, row, wall) || ((col', row') == p && wall' == Opposite(wall))
  {
  }

  /** The two cells an edge separates. */
  function EdgeCells(e: Edge): ((int, int), (int, int))
  {
    match e
    case RightOf(c, r) => ((c, r), (c + 1, r))
    case Below(c, r) => ((c, r), (c, r + 1))
  }

  lemma EdgeCellsOfWall(col: int, row: int, wall: MazeCellWall)
    ensures var cells := EdgeCells(EdgeAt(col, row, wall));
      var p := NeighborPosition(col, row, wall);
      (cells.0 == (col, row) && cells.1 == p) || (cells.0 == p && cells.1 == (col, row))
  {
  }

  // ===========================================================================
  // Counting unvisited cells

  ghost function UnvisitedCount(s: seq<MazeCell>): (n: nat)
    ensures n <= |s|
  {
    if |s| == 0 then 0 else UnvisitedCount(s[..|s| - 1]) + (if s[|s| - 1].visited then 0 else 1)
  }

  /** Changing one cell moves the count by what that cell's flag did. */
  lemma {:induction false} UnvisitedCountUpdate(s: seq<MazeCell>, i: int, c: MazeCell)
    requires 0 <= i < |s|
    ensures UnvisitedCount(s[i := c])
         == UnvisitedCount(s) - (if s[i].visited then 0 else 1) + (if c.visited then 0 else 1)
  {
    var n := |s| - 1;
    if i < n {
      assert s[i := c][..n] == s[..n][i := c];
      UnvisitedCountUpdate(s[..n], i, c);
    } else {
      assert s[i := c][..n] == s[..n];
    }
  }

  /** No cell is unvisited exactly when the count is zero. */
  lemma {:induction false} UnvisitedCountZero(s: seq<MazeCell>)
    ensures UnvisitedCount(s) == 0 <==> forall i :: 0 <= i < |s| ==> s[i].visited
  {
    if |s| > 0 {
      var n := |s| - 1;
      UnvisitedCountZero(s[..n]);
      assert forall i :: 0 <= i < n ==> s[..n][i] == s[i];
    }
  }

  lemma {:induction false} UnvisitedCountAll(s: seq<MazeCell>)
    requires forall i :: 0 <= i < |s| ==> !s[i].visited
    ensures UnvisitedCount(s) == |s|
  {
    if |s| > 0 {
      var n := |s| - 1;
      assert forall i :: 0 <= i < n ==> s[..n][i] == s[i];
      UnvisitedCountAll(s[..n]);
    }
  }

  // ===========================================================================
  // Neighbour lists

  datatype CellPosition = CellPosition(col: int, row: int, sharedWall: int)

  /** The position of a wall in the order the neighbours are listed: LEFT,
      TOP, RIGHT, BOTTOM. */
  function ListRank(w: MazeCellWall): int
  {
    (w + 1) % 4
  }

  /** `ps` lists, in LEFT, TOP, RIGHT, BOTTOM order, exactly the in-bounds
      neighbours of (col, row) that are unvisited in `s` (every in-bounds
      neighbour when `onlyUnvisited` is false), each with the wall it shares
      with (col, row). */
  ghost predicate IsNeighborList(width: int, height: int, s: seq<MazeCell>, col: int, row: int,
                                 ps: seq<CellPosition>, onlyUnvisited: bool)
    requires |s| == width * height
  {
    IsPartialNeighborList(width, height, s, col, row, ps, onlyUnvisited, 4)
  }

  /** The same for the walls of rank below `bound` only. */
  ghost predicate IsPartialNeighborList(width: int, height: int, s: seq<MazeCell>, col: int, row: int,
                                        ps: seq<CellPosition>, onlyUnvisited: bool, bound: int)
    requires |s| == width * height
  {
    && (forall i :: 0 <= i < |ps| ==> IsListedNeighbor(width, height, s, col, row, ps[i], onlyUnvisited))
    && (forall i :: 0 <= i < |ps| ==> ListRank(ps[i].sharedWall) < bound)
    && (forall i, j :: 0 <= i < j < |ps| ==> ListRank(ps[i].sharedWall) < ListRank(ps[j].sharedWall))
    && (forall w: MazeCellWall :: ListRank(w) < bound && Qualifies(width, height, s, col, row, w, onlyUnvisited)
          ==> Lists(ps, w))
  }

  /** Considering the wall of the next rank: the list grows by that neighbour
      exactly when it qualifies. */
  lemma ExtendNeighborList(width: int, height: int, s: seq<MazeCell>, col: int, row: int,
                           ps: seq<CellPosition>, onlyUnvisited: bool, w: MazeCellWall, bound: int, ps': seq<CellPosition>)
    requires |s| == width * height && bound == ListRank(w)
    requires IsPartialNeighborList(width, height, s, col, row, ps, onlyUnvisited, bound)
    requires var p := NeighborPosition(col, row, w);
      ps' == if Qualifies(width, height, s, col, row, w, onlyUnvisited) then ps + [CellPosition(p.0, p.1, w)] else ps
    ensures IsPartialNeighborList(width, height, s, col, row, ps', onlyUnvisited, bound + 1)
  {
    forall v: MazeCellWall ensures Lists(ps', v) <==> Lists(ps, v) || (ps' != ps && v == w) {
      if ps' != ps {
        ListsAppend(ps, ps'[|ps|], v);
        assert ps' == ps + [ps'[|ps|]];
      }
    }
    forall v: MazeCellWall | ListRank(v) < ListRank(w) + 1 && Qualifies(width, height, s, col, row, v, onlyUnvisited)
      ensures Lists(ps', v)
    {
      if v != w {
        assert ListRank(v) != ListRank(w);
      }
    }
  }

  /** The in-bounds neighbours of (col, row), appended in LEFT, TOP, RIGHT,
      BOTTOM order. */
  function InBoundsNeighbors(width: int, height: int, col: int, row: int): seq<CellPosition>
  {
    var l := AppendIf([], col > 0, CellPosition(col - 1, row, LEFT));
    var t := AppendIf(l, row > 0, CellPosition(col, row - 1, TOP));
    var r := AppendIf(t, col < width - 1, CellPosition(col + 1, row, RIGHT));
    AppendIf(r, row < height - 1, CellPosition(col, row + 1, BOTTOM))
  }

  function AppendIf(ps: seq<CellPosition>, condition: bool, p: CellPosition): seq<CellPosition>
  {
    if condition then ps + [p] else ps
  }

  /** Appending the in-bounds neighbours one wall at a time builds the
      neighbour list. */
  lemma InBoundsNeighborsListed(width: int, height: int, s: seq<MazeCell>, col: int, row: int)
    requires |s| == width * height && InBounds(width, height, col, row)
    ensures IsNeighborList(width, height, s, col, row, InBoundsNeighbors(width, height, col, row), false)
  {
    var t := HorizontalThenTop(width, height, s, col, row);
    var r := AppendIf(t, col < width - 1, CellPosition(col + 1, row, RIGHT));
    assert Qualifies(width, height, s, col, row, RIGHT, false) == (col < width - 1);
    ExtendNeighborList(width, height, s, col, row, t, false, RIGHT, 2, r);
    var b := AppendIf(r, row < height - 1, CellPosition(col, row + 1, BOTTOM));
    assert Qualifies(width, height, s, col, row, BOTTOM, false) == (row < height - 1);
    ExtendNeighborList(width, height, s, col, row, r, false, BOTTOM, 3, b);
  }

  /** The first two steps of InBoundsNeighborsListed: the LEFT and TOP neighbours. */
  lemma HorizontalThenTop(width: int, height: int, s: seq<MazeCell>, col: int, row: int) returns (t: seq<CellPosition>)
    requires |s| == width * height && InBounds(width, height, col, row)
    ensures t == AppendIf(AppendIf([], col > 0, CellPosition(col - 1, row, LEFT)), row > 0, CellPosition(col, row - 1, TOP))
    ensures IsPartialNeighborList(width, height, s, col, row, t, false, 2)
  {
    var l := AppendIf([], col > 0, CellPosition(col - 1, row, LEFT));
    assert Qualifies(width, height, s, col, row, LEFT, false) == (col > 0);
    ExtendNeighborList(width, height, s, col, row, [], false, LEFT, 0, l);
    t := AppendIf(l, row > 0, CellPosition(col, row - 1, TOP));
    assert Qualifies(width, height, s, col, row, TOP, false) == (row > 0);
    ExtendNeighborList(width, height, s, col, row, l, false, TOP, 1, t);
  }

  /** What the unvisited-neighbour loop of
      get_cell_unvisited_neighbor_positions has built after looking at the
      first `index` entries of the neighbour list. */
  ghost predicate FilterInvariant(width: int, height: int, s: seq<MazeCell>, col: int, row: int,
                                  positions: seq<CellPosition>, index: int, unvisited: seq<CellPosition>)
    requires |s| == width * height && 0 <= index <= |positions|
  {
    && (forall k :: 0 <= k < |unvisited| ==> IsListedNeighbor(width, height, s, col, row, unvisited[k], true))
    && (forall k, j :: 0 <= k < j < |unvisited| ==> ListRank(unvisited[k].sharedWall) < ListRank(unvisited[j].sharedWall))
    && (forall j :: index <= j < |positions| ==> 0 <= positions[j].sharedWall < 4)
    && (forall k, j :: 0 <= k < |unvisited| && index <= j < |positions| ==>
          ListRank(unvisited[k].sharedWall) < ListRank(positions[j].sharedWall))
    && (forall w: MazeCellWall ::
          Qualifies(width, height, s, col, row, w, true) && Lists(positions[..index], w) ==> Lists(unvisited, w))
  }

  lemma FilterStep(width: int, height: int, s: seq<MazeCell>, col: int, row: int,
                   positions: seq<CellPosition>, index: int, unvisited: seq<CellPosition>, unvisited': seq<CellPosition>)
    requires |s| == width * height && 0 <= index < |positions|
    requires IsNeighborList(width, height, s, col, row, positions, false)
    requires FilterInvariant(width, height, s, col, row, positions, index, unvisited)
    requires var p := positions[index];
      IsListedNeighbor(width, height, s, col, row, p, false) &&
      unvisited' == if !CellAt(s, width, height, p.col, p.row).visited then unvisited + [p] else unvisited
    ensures FilterInvariant(width, height, s, col, row, positions, index + 1, unvisited')
  {
    var p := positions[index];
    if unvisited' == unvisited {
      FilterSkip(width, height, s, col, row, positions, index, unvisited);
    } else {
      assert IsListedNeighbor(width, height, s, col, row, p, true);
      assert forall j :: index < j < |positions| ==> ListRank(p.sharedWall) < ListRank(positions[j].sharedWall);
      FilterKeep(width, height, s, col, row, positions, index, unvisited);
    }
  }

  /** A visited neighbour is passed over. */
  lemma FilterSkip(width: int, height: int, s: seq<MazeCell>, col: int, row: int,
                   positions: seq<CellPosition>, index: int, unvisited: seq<CellPosition>)
    requires |s| == width * height && 0 <= index < |positions|
    requires FilterInvariant(width, height, s, col, row, positions, index, unvisited)
    requires 0 <= positions[index].sharedWall < 4 && !Qualifies(width, height, s, col, row, positions[index].sharedWall, true)
    ensures FilterInvariant(width, height, s, col, row, positions, index + 1, unvisited)
  {
    assert positions[..index + 1] == positions[..index] + [positions[index]];
    forall w: MazeCellWall | Qualifies(width, height, s, col, row, w, true) && Lists(positions[..index + 1], w)
      ensures Lists(unvisited, w)
    {
      ListsAppend(positions[..index], positions[index], w);
      assert positions[index].sharedWall != w;
    }
  }

  /** An unvisited neighbour is appended; it ranks above every entry kept so
      far and below every entry still to come. */
  lemma FilterKeep(width: int, height: int, s: seq<MazeCell>, col: int, row: int,
                   positions: seq<CellPosition>, index: int, unvisited: seq<CellPosition>)
    requires |s| == width * height && 0 <= index < |positions|
    requires FilterInvariant(width, height, s, col, row, positions, index, unvisited)
    requires IsListedNeighbor(width, height, s, col, row, positions[index], true)
    requires forall j :: index < j < |positions| ==> ListRank(positions[index].sharedWall) < ListRank(positions[j].sharedWall)
    ensures FilterInvariant(width, height, s, col, row, positions, index + 1, unvisited + [positions[index]])
  {
    var p := positions[index];
    assert positions[..index + 1] == positions[..index] + [p];
    forall w: MazeCellWall | Qualifies(width, height, s, col, row, w, true) && Lists(positions[..index + 1], w)
      ensures Lists(unvisited + [p], w)
    {
      ListsAppend(positions[..index], p, w);
      ListsAppend(unvisited, p, w);
    }
  }

  lemma FilterDone(width: int, height: int, s: seq<MazeCell>, col: int, row: int,
                   positions: seq<CellPosition>, unvisited: seq<CellPosition>)
    requires |s| == width * height
    requires IsNeighborList(width, height, s, col, row, positions, false)
    requires FilterInvariant(width, height, s, col, row, positions, |positions|, unvisited)
    ensures IsNeighborList(width, height, s, col, row, unvisited, true)
  {
    assert positions[..|positions|] == positions;
    forall w: MazeCellWall | Qualifies(width, height, s, col, row, w, true)
      ensures Lists(unvisited, w)
    {
      assert Qualifies(width, height, s, col, row, w, false);
    }
  }

  /** Some entry of `ps` shares wall `w`. */
  ghost predicate Lists(ps: seq<CellPosition>, w: MazeCellWall)
  {
    exists i :: 0 <= i < |ps| && ps[i].sharedWall == w
  }

  lemma ListsAppend(ps: seq<CellPosition>, p: CellPosition, w: MazeCellWall)
    ensures Lists(ps + [p], w) <==> Lists(ps, w) || p.sharedWall == w
  {
    if Lists(ps, w) {
      var i :| 0 <= i < |ps| && ps[i].sharedWall == w;
      assert (ps + [p])[i].sharedWall == w;
    }
    if p.sharedWall == w {
      assert (ps + [p])[|ps|].sharedWall == w;
    }
    if Lists(ps + [p], w) {
      var i :| 0 <= i < |ps + [p]| && (ps + [p])[i].sharedWall == w;
      if i < |ps| {
        assert ps[i].sharedWall == w;
      }
    }
  }

  ghost predicate IsListedNeighbor(width: int, height: int, s: seq<MazeCell>, col: int, row: int,
                                   p: CellPosition, onlyUnvisited: bool)
    requires |s| == width * height
  {
    && 0 <= p.sharedWall < 4
    && p.col == NeighborPosition(col, row, p.sharedWall).0 && p.row == NeighborPosition(col, row, p.sharedWall).1
    && Qualifies(width, height, s, col, row, p.sharedWall, onlyUnvisited)
  }

  ghost predicate Qualifies(width: int, height: int, s: seq<MazeCell>, col: int, row: int,
                            w: MazeCellWall, onlyUnvisited: bool)
    requires |s| == width * height
  {
    var p := NeighborPosition(col, row, w);
    InBounds(width, height, p.0, p.1) && (onlyUnvisited ==> !CellAt(s, width, height, p.0, p.1).visited)
  }

  /** A neighbour list holds at most four positions, and there is only one. */
  lemma NeighborListUnique(width: int, height: int, s: seq<MazeCell>, col: int, row: int,
                           ps: seq<CellPosition>, qs: seq<CellPosition>, onlyUnvisited: bool)
    requires |s| == width * height
    requires IsNeighborList(width, height, s, col, row, ps, onlyUnvisited)
    requires IsNeighborList(width, height, s, col, row, qs, onlyUnvisited)
    ensures |ps| <= 4 && ps == qs
  {
    RanksBound(ps);
    RanksAgree(width, height, s, col, row, ps, qs, onlyUnvisited);
    forall i | 0 <= i < |ps| ensures ps[i] == qs[i] {
      assert Ranks(ps)[i] == Ranks(qs)[i];
      SameWallSameEntry(width, height, s, col, row, ps[i], qs[i], onlyUnvisited);
    }
  }

  /** Two neighbour lists share the same walls in the same order. */
  lemma RanksAgree(width: int, height: int, s: seq<MazeCell>, col: int, row: int,
                   ps: seq<CellPosition>, qs: seq<CellPosition>, onlyUnvisited: bool)
    requires |s| == width * height
    requires IsNeighborList(width, height, s, col, row, ps, onlyUnvisited)
    requires IsNeighborList(width, height, s, col, row, qs, onlyUnvisited)
    ensures Ranks(ps) == Ranks(qs)
  {
    RanksCovered(width, height, s, col, row, ps, qs, onlyUnvisited);
    RanksCovered(width, height, s, col, row, qs, ps, onlyUnvisited);
    SortedUnique(Ranks(ps), Ranks(qs));
  }

  /** Every wall rank in one neighbour list occurs in another. */
  lemma RanksCovered(width: int, height: int, s: seq<MazeCell>, col: int, row: int,
                     ps: seq<CellPosition>, qs: seq<CellPosition>, onlyUnvisited: bool)
    requires |s| == width * height
    requires IsNeighborList(width, height, s, col, row, ps, onlyUnvisited)
    requires IsNeighborList(width, height, s, col, row, qs, onlyUnvisited)
    ensures forall x :: x in Ranks(ps) ==> x in Ranks(qs)
  {
    var ra, rb := Ranks(ps), Ranks(qs);
    forall x | x in ra ensures x in rb {
      var i :| 0 <= i < |ps| && ra[i] == x;
      var j := ListedIn(width, height, s, col, row, ps, qs, onlyUnvisited, i);
      assert rb[j] == x;
    }
  }

  lemma SameWallSameEntry(width: int, height: int, s: seq<MazeCell>, col: int, row: int,
                          p: CellPosition, q: CellPosition, onlyUnvisited: bool)
    requires |s| == width * height
    requires IsListedNeighbor(width, height, s, col, row, p, onlyUnvisited)
    requires IsListedNeighbor(width, height, s, col, row, q, onlyUnvisited)
    requires ListRank(p.sharedWall) == ListRank(q.sharedWall)
    ensures p == q
  {
  }

  /** The ranks of the walls a list shares, in list order. */
  ghost function Ranks(ps: seq<CellPosition>): (r: seq<int>)
    requires forall i :: 0 <= i < |ps| ==> 0 <= ps[i].sharedWall < 4
    ensures |r| == |ps| && forall i :: 0 <= i < |ps| ==> r[i] == ListRank(ps[i].sharedWall)
  {
    if |ps| == 0 then [] else Ranks(ps[..|ps| - 1]) + [ListRank(ps[|ps| - 1].sharedWall)]
  }

  /** An entry of one neighbour list shares its wall with an entry of another. */
  lemma ListedIn(width: int, height: int, s: seq<MazeCell>, col: int, row: int,
                 ps: seq<CellPosition>, qs: seq<CellPosition>, onlyUnvisited: bool, i: int)
      returns (j: int)
    requires |s| == width * height && 0 <= i < |ps|
    requires forall k :: 0 <= k < |ps| ==> IsListedNeighbor(width, height, s, col, row, ps[k], onlyUnvisited)
    requires IsNeighborList(width, height, s, col, row, qs, onlyUnvisited)
    ensures 0 <= j < |qs| && qs[j].sharedWall == ps[i].sharedWall
  {
    assert IsListedNeighbor(width, height, s, col, row, ps[i], onlyUnvisited);
    var w: MazeCellWall := ps[i].sharedWall;
    assert Qualifies(width, height, s, col, row, w, onlyUnvisited);
    assert Lists(qs, w);
    j :| 0 <= j < |qs| && qs[j].sharedWall == w;
  }

  /** Two strictly increasing sequences with the same elements are equal. */
  lemma {:induction false} SortedUnique(a: seq<int>, b: seq<int>)
    requires forall i, j :: 0 <= i < j < |a| ==> a[i] < a[j]
    requires forall i, j :: 0 <= i < j < |b| ==> b[i] < b[j]
    requires forall x :: x in a <==> x in b
    ensures a == b
  {
    assert |a| > 0 ==> a[0] in a;
    assert |b| > 0 ==> b[0] in b;
    if |a| > 0 {
      assert a[0] in b && b[0] in a;
      assert a[0] == b[0];
      forall x ensures x in a[1..] <==> x in b[1..] {
        assert x in a[1..] <==> x in a && x != a[0];
        assert x in b[1..] <==> x in b && x != b[0];
      }
      SortedUnique(a[1..], b[1..]);
      assert a == [a[0]] + a[1..] && b == [b[0]] + b[1..];
    }
  }

  lemma RanksBound(ps: seq<CellPosition>)
    requires forall i :: 0 <= i < |ps| ==> 0 <= ps[i].sharedWall < 4
    requires forall i, j :: 0 <= i < j < |ps| ==> ListRank(ps[i].sharedWall) < ListRank(ps[j].sharedWall)
    ensures |ps| <= 4
  {
    if |ps| > 4 {
      RankAtLeast(ps, 4);
      assert false;
    }
  }

  lemma {:induction false} RankAtLeast(ps: seq<CellPosition>, i: int)
    requires forall i :: 0 <= i < |ps| ==> 0 <= ps[i].sharedWall < 4
    requires forall i, j :: 0 <= i < j < |ps| ==> ListRank(ps[i].sharedWall) < ListRank(ps[j].sharedWall)
    requires 0 <= i < |ps|
    ensures ListRank(ps[i].sharedWall) >= i
  {
    if i > 0 {
      RankAtLeast(ps, i - 1);
    }
  }

  /** Writing one cell of a snapshot changes the cell at that position and no other. */
  lemma CellAtUpdate(s: seq<MazeCell>, width: int, height: int, col: int, row: int, v: MazeCell)
    requires |s| == width * height && InBounds(width, height, col, row)
    ensures 0 <= Index(width, col, row) < |s|
    ensures forall c, r :: InBounds(width, height, c, r) ==>
        CellAt(s[Index(width, col, row) := v], width, height, c, r)
        == if c == col && r == row then v else CellAt(s, width, height, c, r)
  {
    IndexInRange(width, height, col, row);
    forall c, r | InBounds(width, height, c, r)
      ensures CellAt(s[Index(width, col, row) := v], width, height, c, r)
           == if c == col && r == row then v else CellAt(s, width, height, c, r)
    {
      IndexInRange(width, height, c, r);
      if Index(width, c, r) == Index(width, col, row) {
        IndexInjective(width, height, c, r, col, row);
      }
    }
  }

  // ===========================================================================
  // What the backtracker keeps true

  /** The entrance (the left wall of the top-left cell) and the exit (the
      right wall of the bottom-right cell). */
  predicate IsDoor(width: int, height: int, col: int, row: int, wall: MazeCellWall)
  {
    (col == 0 && row == 0 && wall == LEFT) || (col == width - 1 && row == height - 1 && wall == RIGHT)
  }

  /** Whether a wall should stand: a wall between two cells of the grid stands
      exactly when its edge has not been carved; a wall on the border always
      stands, except the entrance and the exit once the doors are open. */
  ghost predicate WallStands(width: int, height: int, carved: set<Edge>, doorsOpen: bool,
                             col: int, row: int, wall: MazeCellWall)
  {
    var p := NeighborPosition(col, row, wall);
    if InBounds(width, height, p.0, p.1) then EdgeAt(col, row, wall) !in carved
    else !(doorsOpen && IsDoor(width, height, col, row, wall))
  }

  ghost predicate WallsMatch(width: int, height: int, s: seq<MazeCell>, carved: set<Edge>, doorsOpen: bool)
    requires |s| == width * height
  {
    forall c, r, wall: MazeCellWall :: InBounds(width, height, c, r) ==>
      (CellHasWall(CellAt(s, width, height, c, r), wall) <==> WallStands(width, height, carved, doorsOpen, c, r, wall))
  }

  /** Every carved edge lies inside the grid, between two visited cells. */
  ghost predicate OpenedJoinVisited(width: int, height: int, s: seq<MazeCell>, carved: set<Edge>)
    requires |s| == width * height
  {
    forall e :: e in carved ==> OpenedEdge(width, height, s, e)
  }

  ghost predicate OpenedEdge(width: int, height: int, s: seq<MazeCell>, e: Edge)
    requires |s| == width * height
  {
    var (a, b) := EdgeCells(e);
    && InBounds(width, height, a.0, a.1) && InBounds(width, height, b.0, b.1)
    && CellAt(s, width, height, a.0, a.1).visited && CellAt(s, width, height, b.0, b.1).visited
  }

  /** Every stack entry is a visited cell of the grid. */
  ghost predicate StackVisited(width: int, height: int, s: seq<MazeCell>, stack: seq<CellPosition>)
    requires |s| == width * height
  {
    forall i :: 0 <= i < |stack| ==>
      InBounds(width, height, stack[i].col, stack[i].row) && CellAt(s, width, height, stack[i].col, stack[i].row).visited
  }

  ghost predicate OnStack(stack: seq<CellPosition>, col: int, row: int)
  {
    exists i :: 0 <= i < |stack| && stack[i].col == col && stack[i].row == row
  }

  ghost predicate NeighborsVisited(width: int, height: int, s: seq<MazeCell>, col: int, row: int)
    requires |s| == width * height
  {
    forall wall: MazeCellWall :: NeighborVisited(width, height, s, col, row, wall)
  }

  ghost predicate NeighborVisited(width: int, height: int, s: seq<MazeCell>, col: int, row: int, wall: MazeCellWall)
    requires |s| == width * height
  {
    var p := NeighborPosition(col, row, wall);
    InBounds(width, height, p.0, p.1) ==> CellAt(s, width, height, p.0, p.1).visited
  }

  /** A visited cell is still on the stack, or all its neighbours are visited. */
  ghost predicate Closed(width: int, height: int, s: seq<MazeCell>, stack: seq<CellPosition>)
    requires |s| == width * height
  {
    forall c, r {:trigger NeighborsVisited(width, height, s, c, r)}
      :: InBounds(width, height, c, r) && CellAt(s, width, height, c, r).visited ==>
      OnStack(stack, c, r) || NeighborsVisited(width, height, s, c, r)
  }

  /** Two cells joined by a carved edge, in either direction. */
  predicate Joined(carved: set<Edge>, a: (int, int), b: (int, int))
  {
    || (b == (a.0 + 1, a.1) && RightOf(a.0, a.1) in carved)
    || (a == (b.0 + 1, b.1) && RightOf(b.0, b.1) in carved)
    || (b == (a.0, a.1 + 1) && Below(a.0, a.1) in carved)
    || (a == (b.0, b.1 + 1) && Below(b.0, b.1) in carved)
  }

  /** A walk through the maze: each cell is joined to the next by a carved edge. */
  predicate IsCarvedPath(carved: set<Edge>, path: seq<(int, int)>)
  {
    forall i :: 0 <= i < |path| - 1 ==> Joined(carved, path[i], path[i + 1])
  }

  /** Some walk through the carved edges leads from `a` to `b`. */
  ghost predicate Connected(carved: set<Edge>, a: (int, int), b: (int, int))
  {
    exists path :: IsCarvedPath(carved, path) && |path| > 0 && path[0] == a && path[|path| - 1] == b
  }

  /** Every visited cell can be reached from the middle cell through carved edges. */
  ghost predicate ReachedFromCentre(width: int, height: int, s: seq<MazeCell>, carved: set<Edge>)
    requires |s| == width * height
  {
    forall c, r :: InBounds(width, height, c, r) && CellAt(s, width, height, c, r).visited ==>
      Connected(carved, (width / 2, height / 2), (c, r))
  }

  /** A removed wall joins its cell to the neighbour across it. */
  lemma JoinedAcross(carved: set<Edge>, col: int, row: int, wall: MazeCellWall)
    requires EdgeAt(col, row, wall) in carved
    ensures Joined(carved, (col, row), NeighborPosition(col, row, wall))
  {
  }

  /** A walk stays a walk when more edges are carved. */
  lemma PathGrows(carved: set<Edge>, carved': set<Edge>, path: seq<(int, int)>)
    requires IsCarvedPath(carved, path) && carved <= carved'
    ensures IsCarvedPath(carved', path)
  {
    forall i | 0 <= i < |path| - 1 ensures Joined(carved', path[i], path[i + 1]) {
      assert Joined(carved, path[i], path[i + 1]);
    }
  }

  /** A push keeps every visited cell reachable: the old cells by their old
      walks, the new cell by the walk to the top cell and the new edge. */
  lemma PushConnected(width: int, height: int, s0: seq<MazeCell>, s2: seq<MazeCell>, carved: set<Edge>,
                      col: int, row: int, wall: MazeCellWall, next: CellPosition)
    requires |s0| == width * height && |s2| == width * height
    requires ReachedFromCentre(width, height, s0, carved)
    requires InBounds(width, height, col, row) && CellAt(s0, width, height, col, row).visited
    requires (next.col, next.row) == NeighborPosition(col, row, wall)
    requires MarkedVisited(width, height, s0, s2, next.col, next.row)
    ensures ReachedFromCentre(width, height, s2, carved + {EdgeAt(col, row, wall)})
  {
    var carved' := carved + {EdgeAt(col, row, wall)};
    var centre := (width / 2, height / 2);
    forall c, r | InBounds(width, height, c, r) && CellAt(s2, width, height, c, r).visited
      ensures Connected(carved', centre, (c, r))
    {
      if (c, r) == (next.col, next.row) {
        assert Connected(carved, centre, (col, row));
        var path :| IsCarvedPath(carved, path) && |path| > 0 && path[0] == centre && path[|path| - 1] == (col, row);
        PathGrows(carved, carved', path);
        JoinedAcross(carved', col, row, wall);
        var path' := path + [(c, r)];
        assert IsCarvedPath(carved', path') by {
          forall i | 0 <= i < |path'| - 1 ensures Joined(carved', path'[i], path'[i + 1]) {
            if i < |path| - 1 {
              assert path'[i] == path[i] && path'[i + 1] == path[i + 1];
            }
          }
        }
        assert path'[0] == centre && path'[|path'| - 1] == (c, r);
      } else {
        assert CellAt(s0, width, height, c, r).visited;
        assert Connected(carved, centre, (c, r));
        var path :| IsCarvedPath(carved, path) && |path| > 0 && path[0] == centre && path[|path| - 1] == (c, r);
        PathGrows(carved, carved', path);
      }
    }
  }

  /** The cells of a walk in reverse order. */
  function Reversed(path: seq<(int, int)>): (r: seq<(int, int)>)
    ensures |r| == |path| && forall i :: 0 <= i < |path| ==> r[i] == path[|path| - 1 - i]
  {
    if path == [] then [] else Reversed(path[1..]) + [path[0]]
  }

  /** Walks run both ways. */
  lemma ConnectedSymmetric(carved: set<Edge>, a: (int, int), b: (int, int))
    requires Connected(carved, a, b)
    ensures Connected(carved, b, a)
  {
    var path :| IsCarvedPath(carved, path) && |path| > 0 && path[0] == a && path[|path| - 1] == b;
    var back := Reversed(path);
    forall i | 0 <= i < |back| - 1 ensures Joined(carved, back[i], back[i + 1]) {
      assert Joined(carved, path[|path| - 2 - i], path[|path| - 1 - i]);
    }
    assert IsCarvedPath(carved, back) && back[0] == b && back[|back| - 1] == a;
  }

  /** Walks compose. */
  lemma ConnectedTransitive(carved: set<Edge>, a: (int, int), b: (int, int), c: (int, int))
    requires Connected(carved, a, b) && Connected(carved, b, c)
    ensures Connected(carved, a, c)
  {
    var p :| IsCarvedPath(carved, p) && |p| > 0 && p[0] == a && p[|p| - 1] == b;
    var q :| IsCarvedPath(carved, q) && |q| > 0 && q[0] == b && q[|q| - 1] == c;
    var pq := p + q[1..];
    forall i | 0 <= i < |pq| - 1 ensures Joined(carved, pq[i], pq[i + 1]) {
      if i < |p| - 1 {
        assert pq[i] == p[i] && pq[i + 1] == p[i + 1];
      } else {
        assert pq[i] == q[i - |p| + 1] && pq[i + 1] == q[i - |p| + 2];
      }
    }
    assert IsCarvedPath(carved, pq) && pq[0] == a && pq[|pq| - 1] == c;
  }

  /** When every cell is reached from the middle cell, any two cells of the
      grid are joined by a walk through the carved edges. */
  lemma AnyTwoConnected(width: int, height: int, carved: set<Edge>, c: int, r: int, c': int, r': int)
    requires SpansGrid(width, height, carved)
    requires InBounds(width, height, c, r) && InBounds(width, height, c', r')
    ensures Connected(carved, (c, r), (c', r'))
  {
    var centre := (width / 2, height / 2);
    ConnectedSymmetric(carved, centre, (c, r));
    ConnectedTransitive(carved, (c, r), centre, (c', r'));
  }

  /** Every cell of the grid can be reached from the middle cell. */
  ghost predicate SpansGrid(width: int, height: int, carved: set<Edge>)
  {
    forall c, r :: InBounds(width, height, c, r) ==> Connected(carved, (width / 2, height / 2), (c, r))
  }

  /** The invariant of the loop of maze_generate. */
  ghost predicate GenerateInvariant(width: int, height: int, s: seq<MazeCell>, stack: seq<CellPosition>, carved: set<Edge>)
    requires |s| == width * height
  {
    && width >= 1 && height >= 1
    && |stack| + UnvisitedCount(s) <= width * height
    && |carved| + UnvisitedCount(s) == width * height - 1
    && StackVisited(width, height, s, stack)
    && Closed(width, height, s, stack)
    && WallsMatch(width, height, s, carved, false)
    && OpenedJoinVisited(width, height, s, carved)
    && CellAt(s, width, height, width / 2, height / 2).visited
  }

  /** Visited flags never go back to false. */
  ghost predicate VisitedGrows(width: int, height: int, s: seq<MazeCell>, s': seq<MazeCell>)
    requires |s| == width * height && |s'| == width * height
  {
    forall c, r :: InBounds(width, height, c, r) && CellAt(s, width, height, c, r).visited ==>
      CellAt(s', width, height, c, r).visited
  }

  /** The wall state depends on the walls alone. */
  lemma WallsMatchWalls(width: int, height: int, s: seq<MazeCell>, s': seq<MazeCell>, carved: set<Edge>, doorsOpen: bool)
    requires |s| == width * height && |s'| == width * height
    requires forall i :: 0 <= i < |s| ==> s[i].walls == s'[i].walls
    requires WallsMatch(width, height, s, carved, doorsOpen)
    ensures WallsMatch(width, height, s', carved, doorsOpen)
  {
    forall c, r | InBounds(width, height, c, r)
      ensures CellAt(s', width, height, c, r).walls == CellAt(s, width, height, c, r).walls
    {
      IndexInRange(width, height, c, r);
    }
  }

  /** Clearing a wall and its opposite opens their edge and nothing else. */
  lemma OpenEdge(width: int, height: int, s: seq<MazeCell>, s': seq<MazeCell>, carved: set<Edge>,
                 col: int, row: int, wall: MazeCellWall)
    requires |s| == width * height && |s'| == width * height
    requires WallsMatch(width, height, s, carved, false)
    requires var p := NeighborPosition(col, row, wall);
      InBounds(width, height, col, row) && InBounds(width, height, p.0, p.1)
    requires WallRemoved(width, height, s, s', col, row, wall)
    ensures WallsMatch(width, height, s', carved + {EdgeAt(col, row, wall)}, false)
  {
    var p := NeighborPosition(col, row, wall);
    var e := EdgeAt(col, row, wall);
    forall c, r, w: MazeCellWall | InBounds(width, height, c, r)
      ensures CellHasWall(CellAt(s', width, height, c, r), w) <==> WallStands(width, height, carved + {e}, false, c, r, w)
    {
      EdgeAtShared(col, row, wall, c, r, w);
      NeighborOfNeighbor(col, row, wall);
      assert CellHasWall(CellAt(s, width, height, c, r), w) <==> WallStands(width, height, carved, false, c, r, w);
    }
  }

  /** The cells after maze_remove_wall of `wall` on (col, row): that wall
      cleared and, when the neighbour across it is inside the grid, the
      opposite wall of the neighbour cleared too. */
  function WallRemovedState(width: int, height: int, s: seq<MazeCell>, col: int, row: int, wall: MazeCellWall): (s': seq<MazeCell>)
    requires |s| == width * height && InBounds(width, height, col, row)
    ensures |s'| == |s|
  {
    IndexInRange(width, height, col, row);
    var i := Index(width, col, row);
    var s1 := s[i := ClearCellWall(s[i], wall)];
    var p := NeighborPosition(col, row, wall);
    var s' := if InBounds(width, height, p.0, p.1)
      then IndexInRange(width, height, p.0, p.1);
        s1[Index(width, p.0, p.1) := ClearCellWall(s1[Index(width, p.0, p.1)], Opposite(wall))]
      else s1;
    s'
  }

  /** WallRemovedState changes the two cells the wall separates and no other. */
  lemma WallRemovedStateChanges(width: int, height: int, s: seq<MazeCell>, col: int, row: int, wall: MazeCellWall)
    requires |s| == width * height && InBounds(width, height, col, row)
    ensures WallRemoved(width, height, s, WallRemovedState(width, height, s, col, row, wall), col, row, wall)
  {
    var p := NeighborPosition(col, row, wall);
    IndexInRange(width, height, col, row);
    var i := Index(width, col, row);
    var s1 := s[i := ClearCellWall(s[i], wall)];
    CellAtUpdate(s, width, height, col, row, ClearCellWall(s[i], wall));
    if InBounds(width, height, p.0, p.1) {
      IndexInRange(width, height, p.0, p.1);
      var j := Index(width, p.0, p.1);
      CellAtUpdate(s1, width, height, p.0, p.1, ClearCellWall(s1[j], Opposite(wall)));
      assert CellAt(s1, width, height, p.0, p.1) == CellAt(s, width, height, p.0, p.1);
    }
  }

  /** The cells after maze_set_cell_visited: the flag of (col, row) set to
      `visited`, everything else kept. */
  function CellVisitedState(width: int, height: int, s: seq<MazeCell>, col: int, row: int, visited: bool): (s': seq<MazeCell>)
    requires |s| == width * height && InBounds(width, height, col, row)
    ensures |s'| == |s| && 0 <= Index(width, col, row) < |s|
    ensures s'[Index(width, col, row)].visited == visited
  {
    IndexInRange(width, height, col, row);
    s[Index(width, col, row) := s[Index(width, col, row)].(visited := visited)]
  }

  /** Only the flags decide the count. */
  lemma {:induction false} UnvisitedCountFlags(s: seq<MazeCell>, s': seq<MazeCell>)
    requires |s| == |s'| && forall i :: 0 <= i < |s| ==> s[i].visited == s'[i].visited
    ensures UnvisitedCount(s) == UnvisitedCount(s')
  {
    if |s| > 0 {
      var n := |s| - 1;
      UnvisitedCountFlags(s[..n], s'[..n]);
    }
  }

  /** The flags after a push: those before, and the pushed neighbour's. */
  ghost predicate MarkedVisited(width: int, height: int, s: seq<MazeCell>, s': seq<MazeCell>, col: int, row: int)
    requires |s| == width * height && |s'| == width * height
  {
    forall c, r :: InBounds(width, height, c, r) ==>
      CellAt(s', width, height, c, r).visited == (CellAt(s, width, height, c, r).visited || (c == col && r == row))
  }

  /** The changes a RemoveWall of `wall` on (col, row) makes, one position at a time. */
  ghost predicate WallRemoved(width: int, height: int, s: seq<MazeCell>, s': seq<MazeCell>, col: int, row: int, wall: MazeCellWall)
    requires |s| == width * height && |s'| == width * height
  {
    var p := NeighborPosition(col, row, wall);
    forall c, r :: InBounds(width, height, c, r) ==>
      CellAt(s', width, height, c, r) ==
        if c == col && r == row then ClearCellWall(CellAt(s, width, height, c, r), wall)
        else if c == p.0 && r == p.1 then ClearCellWall(CellAt(s, width, height, c, r), Opposite(wall))
        else CellAt(s, width, height, c, r)
  }

  /** The cell on top of the stack lies inside the grid. */
  lemma TopInBounds(width: int, height: int, s: seq<MazeCell>, stack: seq<CellPosition>, carved: set<Edge>)
    requires |s| == width * height
    requires GenerateInvariant(width, height, s, stack, carved) && |stack| > 0
    ensures InBounds(width, height, stack[|stack| - 1].col, stack[|stack| - 1].row)
  {
    assert StackVisited(width, height, s, stack);
  }

  /** Before a push: the stack has room for one more cell, and the chosen
      neighbour and the top cell are inside the grid. */
  lemma PushRoom(width: int, height: int, s: seq<MazeCell>, stack: seq<CellPosition>, carved: set<Edge>,
                 top: CellPosition, ps: seq<CellPosition>, k: int)
    requires |s| == width * height
    requires GenerateInvariant(width, height, s, stack, carved) && |stack| > 0 && top == stack[|stack| - 1]
    requires IsNeighborList(width, height, s, top.col, top.row, ps, true) && 0 <= k < |ps|
    ensures |stack| < width * height
    ensures InBounds(width, height, top.col, top.row) && InBounds(width, height, ps[k].col, ps[k].row)
    ensures 0 <= ps[k].sharedWall < 4
  {
    assert IsListedNeighbor(width, height, s, top.col, top.row, ps[k], true);
    UnvisitedSomewhere(width, height, s, ps[k].col, ps[k].row);
  }

  /** A push: the wall between the top cell and the k-th of its unvisited
      neighbours is removed, that neighbour is pushed and marked visited,
      and its edge is carved. The invariant holds again and one cell fewer
      is unvisited. */
  lemma PushStep(width: int, height: int, s0: seq<MazeCell>, s2: seq<MazeCell>,
                 stack: seq<CellPosition>, stack': seq<CellPosition>, carved: set<Edge>, carved': set<Edge>,
                 top: CellPosition, ps: seq<CellPosition>, k: int)
    requires |s0| == width * height
    requires GenerateInvariant(width, height, s0, stack, carved) && |stack| > 0 && top == stack[|stack| - 1]
    requires IsNeighborList(width, height, s0, top.col, top.row, ps, true) && 0 <= k < |ps|
    requires InBounds(width, height, top.col, top.row) && InBounds(width, height, ps[k].col, ps[k].row)
    requires 0 <= ps[k].sharedWall < 4
    requires s2 == CellVisitedState(width, height, WallRemovedState(width, height, s0, top.col, top.row, ps[k].sharedWall),
                                    ps[k].col, ps[k].row, true)
    requires stack' == stack + [ps[k]]
    requires carved' == carved + {EdgeAt(top.col, top.row, ps[k].sharedWall)}
    ensures |s2| == width * height
    ensures GenerateInvariant(width, height, s2, stack', carved')
    ensures UnvisitedCount(s2) == UnvisitedCount(s0) - 1
  {
    var next := ps[k];
    assert IsListedNeighbor(width, height, s0, top.col, top.row, next, true);
    var wall: MazeCellWall := next.sharedWall;
    var e := EdgeAt(top.col, top.row, wall);
    var s1 := WallRemovedState(width, height, s0, top.col, top.row, wall);
    WallRemovedStateChanges(width, height, s0, top.col, top.row, wall);
    PushFlags(width, height, s0, s1, s2, top.col, top.row, next);
    // The carved edge is new: it touches the unvisited neighbour.
    EdgeCellsOfWall(top.col, top.row, wall);
    assert !OpenedEdge(width, height, s0, e);
    assert e !in carved;
    OpenEdge(width, height, s0, s1, carved, top.col, top.row, wall);
    WallsMatchWalls(width, height, s1, s2, carved + {e}, false);
    PushCarved(width, height, s0, s2, carved, e);
    PushClosed(width, height, s0, s2, stack, next);
    assert |carved + {e}| == |carved| + 1;
    assert CellAt(s2, width, height, width / 2, height / 2).visited;
  }

  /** A push keeps both the loop invariant and the reachability of every
      visited cell, and one cell fewer is unvisited. */
  lemma PushKeeps(width: int, height: int, s0: seq<MazeCell>, s2: seq<MazeCell>,
                  stack: seq<CellPosition>, stack': seq<CellPosition>, carved: set<Edge>, carved': set<Edge>,
                  top: CellPosition, ps: seq<CellPosition>, k: int)
    requires |s0| == width * height
    requires GenerateInvariant(width, height, s0, stack, carved) && |stack| > 0 && top == stack[|stack| - 1]
    requires ReachedFromCentre(width, height, s0, carved)
    requires IsNeighborList(width, height, s0, top.col, top.row, ps, true) && 0 <= k < |ps|
    requires InBounds(width, height, top.col, top.row) && InBounds(width, height, ps[k].col, ps[k].row)
    requires 0 <= ps[k].sharedWall < 4
    requires s2 == CellVisitedState(width, height, WallRemovedState(width, height, s0, top.col, top.row, ps[k].sharedWall),
                                    ps[k].col, ps[k].row, true)
    requires stack' == stack + [ps[k]]
    requires carved' == carved + {EdgeAt(top.col, top.row, ps[k].sharedWall)}
    ensures |s2| == width * height
    ensures GenerateInvariant(width, height, s2, stack', carved') && ReachedFromCentre(width, height, s2, carved')
    ensures UnvisitedCount(s2) == UnvisitedCount(s0) - 1
  {
    PushStep(width, height, s0, s2, stack, stack', carved, carved', top, ps, k);
    PushReach(width, height, s0, s2, stack, carved, carved', top, ps, k);
  }

  /** A push keeps every visited cell reachable from the middle cell. */
  lemma PushReach(width: int, height: int, s0: seq<MazeCell>, s2: seq<MazeCell>,
                  stack: seq<CellPosition>, carved: set<Edge>, carved': set<Edge>,
                  top: CellPosition, ps: seq<CellPosition>, k: int)
    requires |s0| == width * height
    requires GenerateInvariant(width, height, s0, stack, carved) && |stack| > 0 && top == stack[|stack| - 1]
    requires ReachedFromCentre(width, height, s0, carved)
    requires IsNeighborList(width, height, s0, top.col, top.row, ps, true) && 0 <= k < |ps|
    requires InBounds(width, height, top.col, top.row) && InBounds(width, height, ps[k].col, ps[k].row)
    requires 0 <= ps[k].sharedWall < 4
    requires s2 == CellVisitedState(width, height, WallRemovedState(width, height, s0, top.col, top.row, ps[k].sharedWall),
                                    ps[k].col, ps[k].row, true)
    requires carved' == carved + {EdgeAt(top.col, top.row, ps[k].sharedWall)}
    ensures |s2| == width * height
    ensures ReachedFromCentre(width, height, s2, carved')
  {
    var next := ps[k];
    assert IsListedNeighbor(width, height, s0, top.col, top.row, next, true);
    var wall: MazeCellWall := next.sharedWall;
    var s1 := WallRemovedState(width, height, s0, top.col, top.row, wall);
    WallRemovedStateChanges(width, height, s0, top.col, top.row, wall);
    PushFlags(width, height, s0, s1, s2, top.col, top.row, next);
    assert StackVisited(width, height, s0, stack);
    PushConnected(width, height, s0, s2, carved, top.col, top.row, wall, next);
  }

  lemma PushFlags(width: int, height: int, s0: seq<MazeCell>, s1: seq<MazeCell>, s2: seq<MazeCell>,
                  col: int, row: int, next: CellPosition)
    requires |s0| == width * height && |s1| == width * height
    requires 0 <= next.sharedWall < 4
    requires next.col == NeighborPosition(col, row, next.sharedWall).0 && next.row == NeighborPosition(col, row, next.sharedWall).1
    requires InBounds(width, height, next.col, next.row)
    requires !CellAt(s0, width, height, next.col, next.row).visited
    requires WallRemoved(width, height, s0, s1, col, row, next.sharedWall)
    requires 0 <= Index(width, next.col, next.row) < |s1|
    requires s2 == s1[Index(width, next.col, next.row) := s1[Index(width, next.col, next.row)].(visited := true)]
    ensures UnvisitedCount(s2) == UnvisitedCount(s0) - 1
    ensures MarkedVisited(width, height, s0, s2, next.col, next.row) && VisitedGrows(width, height, s0, s2)
    ensures forall i :: 0 <= i < |s1| ==> s1[i].walls == s2[i].walls
  {
    var marked := s1[Index(width, next.col, next.row)].(visited := true);
    forall i | 0 <= i < |s0| ensures s1[i].visited == s0[i].visited {
      PositionOfIndex(width, height, i);
      assert CellAt(s1, width, height, i % width, i / width).visited == CellAt(s0, width, height, i % width, i / width).visited;
    }
    UnvisitedCountFlags(s0, s1);
    assert !s1[Index(width, next.col, next.row)].visited;
    UnvisitedCountUpdate(s1, Index(width, next.col, next.row), marked);
    CellAtUpdate(s1, width, height, next.col, next.row, marked);
  }

  lemma PushCarved(width: int, height: int, s0: seq<MazeCell>, s2: seq<MazeCell>, carved: set<Edge>, e: Edge)
    requires |s0| == width * height && |s2| == width * height
    requires OpenedJoinVisited(width, height, s0, carved) && VisitedGrows(width, height, s0, s2)
    requires OpenedEdge(width, height, s2, e)
    ensures OpenedJoinVisited(width, height, s2, carved + {e})
  {
    forall x | x in carved + {e} ensures OpenedEdge(width, height, s2, x) {
      if x != e {
        assert OpenedEdge(width, height, s0, x);
      }
    }
  }

  lemma PushClosed(width: int, height: int, s0: seq<MazeCell>, s2: seq<MazeCell>, stack: seq<CellPosition>, next: CellPosition)
    requires |s0| == width * height && |s2| == width * height
    requires StackVisited(width, height, s0, stack) && Closed(width, height, s0, stack)
    requires InBounds(width, height, next.col, next.row)
    requires MarkedVisited(width, height, s0, s2, next.col, next.row)
    ensures StackVisited(width, height, s2, stack + [next]) && Closed(width, height, s2, stack + [next])
  {
    var stack' := stack + [next];
    forall c, r | InBounds(width, height, c, r) && CellAt(s2, width, height, c, r).visited
      ensures OnStack(stack', c, r) || NeighborsVisited(width, height, s2, c, r)
    {
      if (c, r) == (next.col, next.row) {
        assert stack'[|stack|] == next;
      } else if OnStack(stack, c, r) {
        var i :| 0 <= i < |stack| && stack[i].col == c && stack[i].row == r;
        assert stack'[i] == stack[i];
      } else {
        assert NeighborsVisited(width, height, s0, c, r);
        forall w: MazeCellWall ensures NeighborVisited(width, height, s2, c, r, w) {
          assert NeighborVisited(width, height, s0, c, r, w);
        }
      }
    }
    forall i | 0 <= i < |stack'|
      ensures InBounds(width, height, stack'[i].col, stack'[i].row) && CellAt(s2, width, height, stack'[i].col, stack'[i].row).visited
    {
      if i < |stack| {
        assert stack'[i] == stack[i];
      }
    }
  }

  /** A pop of a cell without unvisited neighbours keeps the invariant. */
  lemma PopStep(width: int, height: int, s: seq<MazeCell>, stack: seq<CellPosition>, stack': seq<CellPosition>,
                carved: set<Edge>, top: CellPosition, ps: seq<CellPosition>)
    requires |s| == width * height
    requires GenerateInvariant(width, height, s, stack, carved) && |stack| > 0 && top == stack[|stack| - 1]
    requires IsNeighborList(width, height, s, top.col, top.row, ps, true) && |ps| == 0
    requires stack' == stack[..|stack| - 1]
    ensures GenerateInvariant(width, height, s, stack', carved)
  {
    assert ps == [];
    forall w: MazeCellWall ensures NeighborVisited(width, height, s, top.col, top.row, w) {
      assert !Lists([], w);
    }
    forall c, r | InBounds(width, height, c, r) && CellAt(s, width, height, c, r).visited
      ensures OnStack(stack', c, r) || NeighborsVisited(width, height, s, c, r)
    {
      if OnStack(stack, c, r) {
        var i :| 0 <= i < |stack| && stack[i].col == c && stack[i].row == r;
        if i < |stack| - 1 {
          assert stack'[i] == stack[i];
        }
      }
    }
    assert StackVisited(width, height, s, stack');
  }

  /** In a grid, a visited and an unvisited cell are joined by a chain of
      neighbours, so some visited cell has an unvisited neighbour. */
  lemma {:induction false} FrontierExists(width: int, height: int, s: seq<MazeCell>, c0: int, r0: int, c1: int, r1: int)
      returns (c: int, r: int, wall: MazeCellWall)
    requires |s| == width * height
    requires InBounds(width, height, c0, r0) && InBounds(width, height, c1, r1)
    requires CellAt(s, width, height, c0, r0).visited && !CellAt(s, width, height, c1, r1).visited
    ensures InBounds(width, height, c, r) && CellAt(s, width, height, c, r).visited
    ensures !NeighborVisited(width, height, s, c, r, wall) && !NeighborsVisited(width, height, s, c, r)
    decreases Abs(c1 - c0) + Abs(r1 - r0)
  {
    wall := if c0 < c1 then RIGHT else if c1 < c0 then LEFT else if r0 < r1 then BOTTOM else TOP;
    var p := NeighborPosition(c0, r0, wall);
    if !CellAt(s, width, height, p.0, p.1).visited {
      c, r := c0, r0;
    } else {
      c, r, wall := FrontierExists(width, height, s, p.0, p.1, c1, r1);
    }
  }

  /** The loop ends with an empty stack, and then every cell is visited. */
  lemma AllVisited(width: int, height: int, s: seq<MazeCell>, carved: set<Edge>)
    requires |s| == width * height
    requires GenerateInvariant(width, height, s, [], carved) && ReachedFromCentre(width, height, s, carved)
    ensures MazeComplete(width, height, s, carved, false)
    ensures UnvisitedCount(s) == 0 && |carved| == width * height - 1
  {
    forall c, r | InBounds(width, height, c, r)
      ensures Connected(carved, (width / 2, height / 2), (c, r))
    {
      IndexInRange(width, height, c, r);
      AllVisitedAt(width, height, s, carved, Index(width, c, r));
    }
    forall i | 0 <= i < |s| ensures s[i].visited {
      AllVisitedAt(width, height, s, carved, i);
    }
    UnvisitedCountZero(s);
  }

  /** With an empty stack, the cell at index i is visited. */
  lemma AllVisitedAt(width: int, height: int, s: seq<MazeCell>, carved: set<Edge>, i: int)
    requires |s| == width * height
    requires GenerateInvariant(width, height, s, [], carved)
    requires 0 <= i < |s|
    ensures s[i].visited
  {
    PositionOfIndex(width, height, i);
    if !s[i].visited {
      var c, r, wall := FrontierExists(width, height, s, width / 2, height / 2, i % width, i / width);
      assert false;
    }
  }

  /** A pristine grid has every wall standing and nothing carved. */
  lemma InitialWalls(width: int, height: int, s: seq<MazeCell>)
    requires |s| == width * height && forall i :: 0 <= i < |s| ==> s[i] == PRISTINE
    ensures WallsMatch(width, height, s, {}, false)
  {
    forall c, r, w: MazeCellWall | InBounds(width, height, c, r)
      ensures CellHasWall(CellAt(s, width, height, c, r), w)
    {
      IndexInRange(width, height, c, r);
      WallsDetermineMask(PRISTINE, PRISTINE);
    }
  }

  /** After the middle cell is pushed and marked visited, the loop invariant holds. */
  lemma InitialState(width: int, height: int, s0: seq<MazeCell>, s1: seq<MazeCell>, stack: seq<CellPosition>)
    requires |s0| == width * height && width >= 1 && height >= 1
    requires forall i :: 0 <= i < |s0| ==> s0[i] == PRISTINE
    requires UnvisitedCount(s0) == |s0| && WallsMatch(width, height, s0, {}, false)
    requires stack == [CellPosition(width / 2, height / 2, -1)]
    requires s1 == CellVisitedState(width, height, s0, width / 2, height / 2, true)
    ensures GenerateInvariant(width, height, s1, stack, {})
    ensures ReachedFromCentre(width, height, s1, {})
  {
    var i := Index(width, width / 2, height / 2);
    UnvisitedCountUpdate(s0, i, s1[i]);
    CellAtUpdate(s0, width, height, width / 2, height / 2, s1[i]);
    forall j | 0 <= j < |s0| ensures s0[j].walls == s1[j].walls {
    }
    WallsMatchWalls(width, height, s0, s1, {}, false);
    forall c, r | InBounds(width, height, c, r) && CellAt(s1, width, height, c, r).visited
      ensures OnStack(stack, c, r) && Connected({}, (width / 2, height / 2), (c, r))
    {
      IndexInRange(width, height, c, r);
      assert stack[0].col == c && stack[0].row == r;
      assert IsCarvedPath({}, [(c, r)]);
    }
  }

  /** An unvisited cell means the count is positive. */
  lemma UnvisitedSomewhere(width: int, height: int, s: seq<MazeCell>, col: int, row: int)
    requires |s| == width * height && InBounds(width, height, col, row)
    requires !CellAt(s, width, height, col, row).visited
    ensures UnvisitedCount(s) >= 1
  {
    IndexInRange(width, height, col, row);
    UnvisitedCountZero(s);
  }

  /** Clearing the entrance and the exit opens the doors and nothing else. */
  lemma OpenDoors(width: int, height: int, s0: seq<MazeCell>, s1: seq<MazeCell>, s2: seq<MazeCell>, carved: set<Edge>)
    requires width >= 1 && height >= 1
    requires |s0| == width * height && |s1| == width * height && |s2| == width * height
    requires WallsMatch(width, height, s0, carved, false)
    requires WallRemoved(width, height, s0, s1, 0, 0, LEFT)
    requires WallRemoved(width, height, s1, s2, width - 1, height - 1, RIGHT)
    ensures WallsMatch(width, height, s2, carved, true)
  {
    forall c, r, w: MazeCellWall | InBounds(width, height, c, r)
      ensures CellHasWall(CellAt(s2, width, height, c, r), w) <==> WallStands(width, height, carved, true, c, r, w)
    {
      var a0, a1, a2 := CellAt(s0, width, height, c, r), CellAt(s1, width, height, c, r), CellAt(s2, width, height, c, r);
      assert a1 == if (c, r) == (0, 0) then ClearCellWall(a0, LEFT) else a0;
      assert a2 == if (c, r) == (width - 1, height - 1) then ClearCellWall(a1, RIGHT) else a1;
      assert CellHasWall(a0, w) <==> WallStands(width, height, carved, false, c, r, w);
      var p := NeighborPosition(c, r, w);
      if IsDoor(width, height, c, r, w) {
        assert !InBounds(width, height, p.0, p.1);
      } else {
        assert CellHasWall(a2, w) == CellHasWall(a0, w);
      }
    }
  }

  /** The finished maze: every cell visited, every carved edge joins two
      visited cells, every cell reachable from the middle cell through carved
      edges, and the walls standing are exactly the uncarved internal walls
      and the outer walls other than the entrance and the exit. */
  ghost predicate MazeComplete(width: int, height: int, s: seq<MazeCell>, carved: set<Edge>, doorsOpen: bool)
    requires |s| == width * height
  {
    && (forall i :: 0 <= i < |s| ==> s[i].visited)
    && OpenedJoinVisited(width, height, s, carved)
    && WallsMatch(width, height, s, carved, doorsOpen)
    && SpansGrid(width, height, carved)
  }

  lemma DoorsComplete(width: int, height: int, s0: seq<MazeCell>, s1: seq<MazeCell>, s2: seq<MazeCell>, carved: set<Edge>)
    requires width >= 1 && height >= 1
    requires |s0| == width * height && |s1| == width * height && |s2| == width * height
    requires MazeComplete(width, height, s0, carved, false)
    requires s1 == WallRemovedState(width, height, s0, 0, 0, LEFT)
    requires s2 == WallRemovedState(width, height, s1, width - 1, height - 1, RIGHT)
    ensures MazeComplete(width, height, s2, carved, true)
    ensures !CellHasWall(CellAt(s2, width, height, 0, 0), LEFT)
    ensures !CellHasWall(CellAt(s2, width, height, width - 1, height - 1), RIGHT)
  {
    WallRemovedStateChanges(width, height, s0, 0, 0, LEFT);
    WallRemovedStateChanges(width, height, s1, width - 1, height - 1, RIGHT);
    OpenDoors(width, height, s0, s1, s2, carved);
    DoorsKeepVisited(width, height, s0, s1, s2, carved);
  }

  /** Opening the doors leaves every visited flag as it was. */
  lemma DoorsKeepVisited(width: int, height: int, s0: seq<MazeCell>, s1: seq<MazeCell>, s2: seq<MazeCell>, carved: set<Edge>)
    requires width >= 1 && height >= 1
    requires |s0| == width * height && |s1| == width * height && |s2| == width * height
    requires WallRemoved(width, height, s0, s1, 0, 0, LEFT)
    requires WallRemoved(width, height, s1, s2, width - 1, height - 1, RIGHT)
    requires OpenedJoinVisited(width, height, s0, carved)
    requires forall i :: 0 <= i < |s0| ==> s0[i].visited
    ensures OpenedJoinVisited(width, height, s2, carved)
    ensures forall i :: 0 <= i < |s2| ==> s2[i].visited
  {
    assert forall c, r :: InBounds(width, height, c, r) ==>
      CellAt(s2, width, height, c, r).visited == CellAt(s0, width, height, c, r).visited;
    forall e | e in carved ensures OpenedEdge(width, height, s2, e) {
      assert OpenedEdge(width, height, s0, e);
    }
    forall i | 0 <= i < |s2| ensures s2[i].visited {
      PositionOfIndex(width, height, i);
      assert CellAt(s2, width, height, i % width, i / width).visited == CellAt(s0, width, height, i % width, i / width).visited;
    }
  }
}
