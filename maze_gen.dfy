/** The maze generator of src/maze-gen/maze-gen.c: a width x height grid of
    cells in one array, carved into a maze by an iterative depth-first
    backtracker. */
module MazeGen {
  import opened IntOps
  import opened MazeGrid
  import opened RowMajor

  class Maze {
    const width: UInt32
    const height: UInt32
    /** The cells in row-major order. */
    const cells: array<MazeCell>

    predicate Valid()
    {
      cells.Length == width * height
    }

    /** maze_create: every one of the width * height cells unvisited with all
        four walls. */
    constructor (w: UInt32, h: UInt32)
      ensures width == w && height == h && Valid() && fresh(cells)
      ensures forall i :: 0 <= i < cells.Length ==> cells[i] == PRISTINE
    {
      width, height := w, h;
      var a := new MazeCell[w * h];
      var index := 0;
      while index < w * h
        invariant 0 <= index <= w * h
        invariant forall i :: 0 <= i < index ==> a[i] == PRISTINE
      {
        a[index] := PRISTINE;
        index := index + 1;
      }
      cells := a;
    }

    /** maze_init as written: the loop bound `width * height` is computed in
        uint32, so only the first (width * height) mod 2^32 cells are written. */
    method InitAsWritten()
      requires Valid()
      modifies cells
      ensures forall i :: 0 <= i < cells.Length ==>
        cells[i] == if i < WrapU32(width * height) then PRISTINE else old(cells[i])
    {
      var bound := WrapU32(width * height);
      var index := 0;
      while index < bound
        invariant 0 <= index <= bound <= cells.Length
        invariant forall i :: 0 <= i < cells.Length ==>
          cells[i] == if i < index then PRISTINE else old(cells[i])
      {
        cells[index] := PRISTINE;
        index := index + 1;
      }
    }

    /** maze_is_position_in_bounds: a position inside the grid, whose
        row-major index then addresses the cell array. */
    predicate IsPositionInBounds(col: int, row: int): (inside: bool)
      ensures inside <==> 0 <= col < width && 0 <= row < height
      ensures inside ==> 0 <= Index(width, col, row) < width * height
    {
      if InBounds(width, height, col, row) then
        IndexInRange(width, height, col, row);
        true
      else
        false
    }

    function IsCellVisited(col: int, row: int): (visited: bool)
      requires Valid() && InBounds(width, height, col, row)
      reads cells
      ensures visited == CellAt(cells[..], width, height, col, row).visited
    {
      IndexInRange(width, height, col, row);
      cells[Index(width, col, row)].visited
    }

    function HasWall(col: int, row: int, wall: MazeCellWall): (present: bool)
      requires Valid() && InBounds(width, height, col, row)
      reads cells
      ensures present == CellHasWall(CellAt(cells[..], width, height, col, row), wall)
    {
      IndexInRange(width, height, col, row);
      CellHasWall(cells[Index(width, col, row)], wall)
    }

    method SetCellVisited(col: int, row: int, visited: bool)
      requires Valid() && InBounds(width, height, col, row)
      modifies cells
      ensures cells[..] == CellVisitedState(width, height, old(cells[..]), col, row, visited)
    {
      IndexInRange(width, height, col, row);
      var i := Index(width, col, row);
      cells[i] := cells[i].(visited := visited);
    }

    /** maze_add_wall: the wall on (col, row), and its opposite on the
        neighbour across it when that neighbour is inside the grid. */
    method AddWall(col: int, row: int, wall: MazeCellWall)
      requires Valid() && InBounds(width, height, col, row)
      modifies cells
      ensures 0 <= Index(width, col, row) < cells.Length
      ensures var p := NeighborPosition(col, row, wall);
        var s0 := old(cells[..]);
        var s1 := s0[Index(width, col, row) := CellAddWall(s0[Index(width, col, row)], wall)];
        if InBounds(width, height, p.0, p.1)
        then 0 <= Index(width, p.0, p.1) < cells.Length &&
             cells[..] == s1[Index(width, p.0, p.1) := CellAddWall(s1[Index(width, p.0, p.1)], Opposite(wall))]
        else cells[..] == s1
    {
      IndexInRange(width, height, col, row);
      var i := Index(width, col, row);
      cells[i] := CellAddWall(cells[i], wall);
      var p := NeighborPosition(col, row, wall);
      if IsPositionInBounds(p.0, p.1) {
        IndexInRange(width, height, p.0, p.1);
        var j := Index(width, p.0, p.1);
        cells[j] := CellAddWall(cells[j], Opposite(wall));
      }
    }

    /** maze_remove_wall: clears the wall on (col, row), and its opposite on
        the neighbour across it when that neighbour is inside the grid. */
    method RemoveWall(col: int, row: int, wall: MazeCellWall)
      requires Valid() && InBounds(width, height, col, row)
      modifies cells
      ensures cells[..] == WallRemovedState(width, height, old(cells[..]), col, row, wall)
    {
      IndexInRange(width, height, col, row);
      var i := Index(width, col, row);
      cells[i] := ClearCellWall(cells[i], wall);
      var p := NeighborPosition(col, row, wall);
      if IsPositionInBounds(p.0, p.1) {
        IndexInRange(width, height, p.0, p.1);
        var j := Index(width, p.0, p.1);
        cells[j] := ClearCellWall(cells[j], Opposite(wall));
      }
    }

    /** get_cell_neighbor_positions: the in-bounds neighbours in the order
        LEFT, TOP, RIGHT, BOTTOM. */
    method GetCellNeighborPositions(col: int, row: int) returns (positions: seq<CellPosition>)
      requires Valid() && InBounds(width, height, col, row)
      ensures IsNeighborList(width, height, cells[..], col, row, positions, false)
    {
      positions := [];
      ghost var expected := AppendIf([], col > 0, CellPosition(col - 1, row, LEFT));
      if col > 0 {
        positions := positions + [CellPosition(col - 1, row, LEFT)];
      }
      assert positions == expected;
      expected := AppendIf(expected, row > 0, CellPosition(col, row - 1, TOP));
      if row > 0 {
        positions := positions + [CellPosition(col, row - 1, TOP)];
      }
      assert positions == expected;
      expected := AppendIf(expected, col < width - 1, CellPosition(col + 1, row, RIGHT));
      if col < width - 1 {
        positions := positions + [CellPosition(col + 1, row, RIGHT)];
      }
      assert positions == expected;
      expected := AppendIf(expected, row < height - 1, CellPosition(col, row + 1, BOTTOM));
      if row < height - 1 {
        positions := positions + [CellPosition(col, row + 1, BOTTOM)];
      }
      assert positions == expected;
      InBoundsNeighborsListed(width, height, cells[..], col, row);
    }

    /** get_cell_unvisited_neighbor_positions: the neighbour list with the
        visited neighbours dropped, order kept. */
    method GetCellUnvisitedNeighborPositions(col: int, row: int) returns (unvisited: seq<CellPosition>)
      requires Valid() && InBounds(width, height, col, row)
      ensures IsNeighborList(width, height, cells[..], col, row, unvisited, true)
    {
      var positions := GetCellNeighborPositions(col, row);
      ghost var s := cells[..];
      unvisited := [];
      var index := 0;
      while index < |positions|
        invariant 0 <= index <= |positions|
        invariant FilterInvariant(width, height, s, col, row, positions, index, unvisited)
      {
        var p := positions[index];
        assert IsListedNeighbor(width, height, s, col, row, p, false);
        ghost var before := unvisited;
        if !IsCellVisited(p.col, p.row) {
          unvisited := unvisited + [p];
        }
        FilterStep(width, height, s, col, row, positions, index, before, unvisited);
        index := index + 1;
      }
      FilterDone(width, height, s, col, row, positions, unvisited);
    }

    /** maze_generate: an iterative depth-first backtracker over an explicit
        stack of positions, starting from the middle cell, followed by opening
        the entrance and the exit. `rand(k)` stands for the k-th value of the
        C library's rand(). The ghost result is the set of internal edges the
        generator carves: width * height - 1 of them, joining every pair of
        cells, that is, a spanning tree of the grid. */
    method Generate(rand: nat -> nat) returns (ghost carved: set<Edge>)
      requires Valid() && width >= 1 && height >= 1
      requires forall i :: 0 <= i < cells.Length ==> cells[i] == PRISTINE
      modifies cells
      ensures |carved| == width * height - 1
      ensures MazeComplete(width, height, cells[..], carved, true)
      ensures forall c, r, c', r' :: InBounds(width, height, c, r) && InBounds(width, height, c', r') ==>
        Connected(carved, (c, r), (c', r'))
      ensures !HasWall(0, 0, LEFT) && !HasWall(width - 1, height - 1, RIGHT)
    {
      var stack, length := PushCentre();
      var draws := 0;
      carved := {};
      while length > 0
        invariant 0 <= length <= stack.Length == width * height
        invariant GenerateInvariant(width, height, cells[..], stack[..length], carved)
        invariant ReachedFromCentre(width, height, cells[..], carved)
        decreases UnvisitedCount(cells[..]), length
      {
        ghost var count := UnvisitedCount(cells[..]);
        ghost var length0 := length;
        length, draws, carved := Backtrack(stack, length, rand, draws, carved);
        assert UnvisitedCount(cells[..]) < count || (UnvisitedCount(cells[..]) == count && length < length0);
      }

      assert stack[..length] == [];
      AllVisited(width, height, cells[..], carved);
      OpenEntranceAndExit(carved);
      forall c, r, c', r' | InBounds(width, height, c, r) && InBounds(width, height, c', r')
        ensures Connected(carved, (c, r), (c', r'))
      {
        AnyTwoConnected(width, height, carved, c, r, c', r');
      }
    }

    /** The start of maze_generate: a stack with room for every cell, holding
        the middle cell, which is marked visited. */
    method PushCentre() returns (stack: array<CellPosition>, length: nat)
      requires Valid() && width >= 1 && height >= 1
      requires forall i :: 0 <= i < cells.Length ==> cells[i] == PRISTINE
      modifies cells
      ensures fresh(stack) && stack.Length == width * height && length == 1
      ensures stack[..length] == [CellPosition(width / 2, height / 2, -1)]
      ensures GenerateInvariant(width, height, cells[..], stack[..length], {})
      ensures ReachedFromCentre(width, height, cells[..], {})
    {
      stack := new CellPosition[width * height];
      UnvisitedCountAll(cells[..]);
      InitialWalls(width, height, cells[..]);
      stack[0] := CellPosition(width / 2, height / 2, -1);
      length := 1;
      ghost var s0 := cells[..];
      SetCellVisited(stack[0].col, stack[0].row, true);
      InitialState(width, height, s0, cells[..], stack[..length]);
    }

    /** One iteration of maze_generate's loop. When the cell on top of the
        stack has unvisited neighbours, the `draws`-th random number picks one
        of them and Advance carves into it. Otherwise the top cell is popped. */
    method Backtrack(stack: array<CellPosition>, length: nat, rand: nat -> nat, draws: nat, ghost carved: set<Edge>)
      returns (length': nat, draws': nat, ghost carved': set<Edge>)
      requires Valid() && 0 < length <= stack.Length == width * height
      requires GenerateInvariant(width, height, cells[..], stack[..length], carved)
      requires ReachedFromCentre(width, height, cells[..], carved)
      modifies cells, stack
      ensures length' <= stack.Length
      ensures GenerateInvariant(width, height, cells[..], stack[..length'], carved')
      ensures ReachedFromCentre(width, height, cells[..], carved')
      ensures || UnvisitedCount(cells[..]) < old(UnvisitedCount(cells[..]))
              || (UnvisitedCount(cells[..]) == old(UnvisitedCount(cells[..])) && length' < length)
    {
      var current := stack[length - 1];
      TopInBounds(width, height, cells[..], stack[..length], carved);
      var unvisitedNeighbors := GetCellUnvisitedNeighborPositions(current.col, current.row);
      if |unvisitedNeighbors| > 0 {
        var randomIndex := rand(draws) % |unvisitedNeighbors|;
        carved' := Push(stack, length, current, unvisitedNeighbors, randomIndex, carved);
        length', draws' := length + 1, draws + 1;
      } else {
        length', draws', carved' := length - 1, draws, carved;
        PopStep(width, height, cells[..], stack[..length], stack[..length'], carved, current, unvisitedNeighbors);
      }
    }

    /** The branch of an iteration that finds an unvisited neighbour: the
        chosen neighbour is carved into and pushed, which keeps the loop
        invariant and leaves one unvisited cell fewer. */
    method Push(stack: array<CellPosition>, length: nat, current: CellPosition,
                unvisitedNeighbors: seq<CellPosition>, randomIndex: nat, ghost carved: set<Edge>)
      returns (ghost carved': set<Edge>)
      requires Valid() && 0 < length <= stack.Length == width * height
      requires GenerateInvariant(width, height, cells[..], stack[..length], carved)
      requires ReachedFromCentre(width, height, cells[..], carved)
      requires current == stack[length - 1]
      requires IsNeighborList(width, height, cells[..], current.col, current.row, unvisitedNeighbors, true)
      requires randomIndex < |unvisitedNeighbors|
      modifies cells, stack
      ensures length < stack.Length
      ensures GenerateInvariant(width, height, cells[..], stack[..length + 1], carved')
      ensures ReachedFromCentre(width, height, cells[..], carved')
      ensures UnvisitedCount(cells[..]) == old(UnvisitedCount(cells[..])) - 1
    {
      var next := unvisitedNeighbors[randomIndex];
      ghost var before, stackBefore := cells[..], stack[..length];
      PushRoom(width, height, before, stackBefore, carved, current, unvisitedNeighbors, randomIndex);
      Advance(stack, length, current, next);
      carved' := carved + {EdgeAt(current.col, current.row, next.sharedWall)};
      PushKeeps(width, height, before, cells[..], stackBefore, stack[..length + 1], carved, carved',
                current, unvisitedNeighbors, randomIndex);
    }

    /** The push half of an iteration: the wall between `current` and its
        neighbour `next` is removed, `next` is pushed onto the stack and
        marked visited. */
    method Advance(stack: array<CellPosition>, length: nat, current: CellPosition, next: CellPosition)
      requires Valid() && length < stack.Length && 0 <= next.sharedWall < 4
      requires InBounds(width, height, current.col, current.row) && InBounds(width, height, next.col, next.row)
      modifies cells, stack
      ensures cells[..] == CellVisitedState(width, height,
        WallRemovedState(width, height, old(cells[..]), current.col, current.row, next.sharedWall), next.col, next.row, true)
      ensures stack[..length + 1] == old(stack[..length]) + [next]
    {
      RemoveWall(current.col, current.row, next.sharedWall);
      stack[length] := next;
      SetCellVisited(next.col, next.row, true);
    }

    /** The last step of maze_generate: the entrance in the left wall of the
        top-left cell and the exit in the right wall of the bottom-right cell. */
    method OpenEntranceAndExit(ghost carved: set<Edge>)
      requires Valid() && width >= 1 && height >= 1
      requires MazeComplete(width, height, cells[..], carved, false)
      modifies cells
      ensures MazeComplete(width, height, cells[..], carved, true)
      ensures !HasWall(0, 0, LEFT) && !HasWall(width - 1, height - 1, RIGHT)
    {
      ghost var generated := cells[..];
      RemoveWall(0, 0, LEFT);
      ghost var entered := cells[..];
      RemoveWall(width - 1, height - 1, RIGHT);
      DoorsComplete(width, height, generated, entered, cells[..], carved);
    }
  }

  /** As written, maze_init of a 65536 x 65536 maze writes no cell at all:
      the uint32 product 2^32 wraps to 0, so InitAsWritten leaves every cell
      as it was, where the constructor makes all 2^32 of them pristine. */
  lemma InitBoundWraps(w: UInt32, h: UInt32)
    requires w == TWO_16 && h == TWO_16
    ensures w * h == TWO_32 && WrapU32(w * h) == 0
  {
  }
}
