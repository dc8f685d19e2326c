/** The Game of Life engine as an object: a grid of cells that the
    constructor seeds and that `Tick` replaces by the next generation. */
module Life {
  import opened LifeSpec

  /** The fixed number of rows and of columns of the universe. */
  const Size: nat := 128

  class Universe {
    const width: nat
    const height: nat
    var cells: Grid

    /** The object invariant: positive fixed dimensions, a `height` by `width`
        grid, and only 0 and 1 in it. */
    ghost predicate Valid()
      reads this
    {
      width > 0 && height > 0 && IsGrid(cells, height, width) && IsBinary(cells)
    }

    /** Seeds a 128 by 128 grid in row-major order from a running counter. */
    constructor ()
      ensures Valid()
      ensures width == Size && height == Size
      ensures IsSeeded(cells, height, width)
    {
      width := Size;
      height := Size;
      new;
      var rows: Grid := [];
      var cellCount: nat := 0;
      for i := 0 to height
        invariant |rows| == i
        invariant cellCount == i * width
        invariant forall r :: 0 <= r < i ==> |rows[r]| == width
        invariant forall r, c :: 0 <= r < i && 0 <= c < width ==> rows[r][c] == SeedCell(r * width + c)
      {
        var row: seq<int> := [];
        for j := 0 to width
          invariant |row| == j
          invariant cellCount == i * width + j
          invariant forall c :: 0 <= c < j ==> row[c] == SeedCell(i * width + c)
        {
          if cellCount % 2 == 0 || cellCount % 7 == 0 {
            row := row + [1];
          } else {
            row := row + [0];
          }
          cellCount := cellCount + 1;
        }
        MulSucc(i, width);
        rows := rows + [row];
      }
      cells := rows;
      SeededIsBinary(cells, height, width);
    }

    method GetWidth() returns (w: nat)
      ensures w == width
    {
      w := width;
    }

    method GetHeight() returns (h: nat)
      ensures h == height
    {
      h := height;
    }

    method GetCells() returns (g: Grid)
      requires Valid()
      ensures g == cells
      ensures IsGrid(g, height, width) && IsBinary(g)
    {
      g := cells;
    }

    /** Reads the cell at (row, col); a coordinate off the grid reads as 0. */
    method SetCellValueHelper(row: int, col: int) returns (v: int)
      requires Valid()
      ensures InBounds(height, width, row, col) ==> v == cells[row][col]
      ensures !InBounds(height, width, row, col) ==> v == 0
      ensures v == CellValue(cells, height, width, row, col)
      ensures v == 1 <==> IsLive(cells, height, width, row, col)
    {
      if row >= 0 && row < height && col >= 0 && col < width {
        return cells[row][col];
      }
      return 0;
    }

    /** Counts the live cells among the eight Moore neighbours of (row, col). */
    method GetLiveNeighborCount(row: int, col: int) returns (count: int)
      requires Valid()
      ensures count == NeighborCount(cells, height, width, row, col)
      ensures count == |LiveNeighbors(cells, height, width, row, col)|
      ensures 0 <= count <= 8
    {
      count := 0;
      var v := SetCellValueHelper(row - 1, col - 1);
      count := count + v;
      v := SetCellValueHelper(row - 1, col);
      count := count + v;
      v := SetCellValueHelper(row - 1, col + 1);
      count := count + v;
      v := SetCellValueHelper(row, col - 1);
      count := count + v;
      v := SetCellValueHelper(row, col + 1);
      count := count + v;
      v := SetCellValueHelper(row + 1, col - 1);
      count := count + v;
      v := SetCellValueHelper(row + 1, col);
      count := count + v;
      v := SetCellValueHelper(row + 1, col + 1);
      count := count + v;
      assert count == NeighborCount(cells, height, width, row, col);
      NeighborCountIsLiveNeighbors(cells, height, width, row, col);
    }

    /** Builds the next generation from the current grid alone, then replaces
        the grid with it. */
    method Tick()
      requires Valid()
      modifies this
      ensures Valid()
      ensures cells == NextGen(old(cells), height, width)
    {
      var nextCells: Grid := [];
      for row := 0 to height
        modifies {}
        invariant |nextCells| == row
        invariant forall r :: 0 <= r < row ==> nextCells[r] == NextRow(cells, height, width, r)
      {
        var nextRow := NextRowOf(row);
        nextCells := nextCells + [nextRow];
      }
      assert nextCells == NextGen(cells, height, width);
      cells := nextCells;
    }

    /** The inner loop of `Tick`: the next state of every cell of one row,
        each computed from the current grid by the four rules in order. */
    method NextRowOf(row: nat) returns (nextRow: seq<int>)
      requires Valid() && row < height
      ensures nextRow == NextRow(cells, height, width, row)
      ensures forall c :: 0 <= c < width ==> nextRow[c] == 0 || nextRow[c] == 1
    {
      nextRow := [];
      for col := 0 to width
        invariant |nextRow| == col
        invariant forall c :: 0 <= c < col ==> nextRow[c] == NextRow(cells, height, width, row)[c]
      {
        var liveNeighbors := GetLiveNeighborCount(row, col);
        var nextCell;
        if cells[row][col] == 1 && liveNeighbors < 2 {
          // Rule 1: underpopulation.
          nextCell := 0;
        } else if cells[row][col] == 1 && (liveNeighbors == 2 || liveNeighbors == 3) {
          // Rule 2: survival.
          nextCell := 1;
        } else if cells[row][col] == 1 && liveNeighbors > 3 {
          // Rule 3: overpopulation.
          nextCell := 0;
        } else if cells[row][col] == 0 && liveNeighbors == 3 {
          // Rule 4: reproduction.
          nextCell := 1;
        } else {
          // Every other cell keeps its state; only a dead cell gets here.
          assert cells[row][col] == 0;
          nextCell := cells[row][col];
        }
        nextRow := nextRow + [nextCell];
      }
    }
  }

  /** Queries change nothing: two rounds of them with no tick between give
      the same answers. */
  method QueriesAreRepeatable(u: Universe)
    returns (w1: nat, h1: nat, g1: Grid, w2: nat, h2: nat, g2: Grid)
    requires u.Valid()
    ensures w1 == w2 == u.width && h1 == h2 == u.height && g1 == g2 == u.cells
  {
    w1 := u.GetWidth();
    h1 := u.GetHeight();
    g1 := u.GetCells();
    w2 := u.GetWidth();
    h2 := u.GetHeight();
    g2 := u.GetCells();
  }
}
