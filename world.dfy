/** The World of js/world.js: a rows x cols grid of Cell objects that it seeds, censuses and
    advances one generation at a time, plus the running flag that run and halt maintain. */
module Worlds {
  import opened Cells
  import opened Life

  /** The grid extent the source's loops `for (r = 0; r < n; r++)` produce. */
  function Extent(n: int): nat
  {
    if n < 0 then 0 else n
  }

  /** A constructor argument as `arg || fallback` reads it; 0 stands for every falsy value. */
  function OrDefault(arg: int, fallback: int): int
  {
    if arg == 0 then fallback else arg
  }

  /** The states of a row of cells, left to right. */
  ghost function RowValues(row: seq<Cell>): (v: seq<CellState>)
    reads set c | 0 <= c < |row| :: row[c]
    ensures |v| == |row|
    ensures forall c {:trigger row[c]} :: 0 <= c < |row| ==> v[c] == row[c].Value()
    decreases |row|
  {
    if row == [] then []
    else
      var front := row[..|row| - 1];
      assert forall c :: 0 <= c < |front| ==> front[c] == row[c];
      RowValues(front) + [row[|row| - 1].Value()]
  }

  /** The states of a grid of cells, row by row. */
  ghost function Values(g: seq<seq<Cell>>): (b: Board)
    reads set r, c | 0 <= r < |g| && 0 <= c < |g[r]| :: g[r][c]
    ensures |b| == |g| && forall r :: 0 <= r < |g| ==> |b[r]| == |g[r]|
    ensures forall r, c {:trigger g[r][c]} :: 0 <= r < |g| && 0 <= c < |g[r]| ==> b[r][c] == g[r][c].Value()
    decreases |g|
  {
    if g == [] then []
    else
      var front := g[..|g| - 1];
      assert forall r :: 0 <= r < |front| ==> front[r] == g[r];
      Values(front) + [RowValues(g[|g| - 1])]
  }

  /** One entry of createSVGData: pixel centre, radius and lifespan of a live cell. */
  datatype SvgDatum = SvgDatum(x: int, y: int, r: int, lifeSpan: nat)

  /** The drawing entry for a live cell: its centre on each axis is the Centre of its index. */
  function Datum(radius: int, e: LiveCell): SvgDatum
  {
    SvgDatum(Centre(radius, e.col), Centre(radius, e.row), radius, e.lifespan)
  }

  /** The drawing entries of a list of live cells, in the same order. */
  function SvgData(radius: int, cells: seq<LiveCell>): seq<SvgDatum>
    decreases |cells|
  {
    if cells == [] then [] else SvgData(radius, cells[..|cells| - 1]) + [Datum(radius, cells[|cells| - 1])]
  }

  lemma SvgDataAppend(radius: int, cells: seq<LiveCell>, e: LiveCell)
    ensures SvgData(radius, cells + [e]) == SvgData(radius, cells) + [Datum(radius, e)]
  {
    assert (cells + [e])[..|cells|] == cells;
  }

  /** One more column of row r: its entry, drawn at (x, y), is appended exactly when the cell
      lives. */
  lemma SvgDataRowStep(radius: int, b: Board, r: nat, c: nat, x: int, y: int)
    requires r < |b| && c < |b[r]| && x == Centre(radius, c) && y == Centre(radius, r)
    ensures SvgData(radius, LiveInRow(b, r, c + 1)) == SvgData(radius, LiveInRow(b, r, c)) +
      (if b[r][c].living then [SvgDatum(x, y, radius, b[r][c].lifespan)] else [])
  {
    if b[r][c].living {
      var e := LiveCell(r, c, b[r][c].lifespan);
      assert LiveInRow(b, r, c + 1) == LiveInRow(b, r, c) + [e];
      SvgDataAppend(radius, LiveInRow(b, r, c), e);
    } else {
      assert LiveInRow(b, r, c + 1) == LiveInRow(b, r, c);
    }
  }

  /** One drawing entry per live cell, in the same order. */
  lemma {:induction false} SvgDataEntries(radius: int, cells: seq<LiveCell>)
    ensures |SvgData(radius, cells)| == |cells|
    ensures forall i :: 0 <= i < |cells| ==> SvgData(radius, cells)[i] == Datum(radius, cells[i])
    decreases |cells|
  {
    if cells != [] {
      SvgDataEntries(radius, cells[..|cells| - 1]);
    }
  }

  /** The drawing entries of two lists of live cells, one after the other. */
  lemma {:induction false} SvgDataConcat(radius: int, xs: seq<LiveCell>, ys: seq<LiveCell>)
    ensures SvgData(radius, xs + ys) == SvgData(radius, xs) + SvgData(radius, ys)
    decreases |ys|
  {
    if ys == [] {
      assert xs + ys == xs;
    } else {
      var init, last := ys[..|ys| - 1], ys[|ys| - 1];
      assert ys == init + [last];
      assert xs + ys == (xs + init) + [last];
      SvgDataConcat(radius, xs, init);
      SvgDataAppend(radius, xs + init, last);
      SvgDataAppend(radius, init, last);
    }
  }

  /** The centre of the k-th cell along an axis as createSVGData accumulates it: radius for
      the first cell, then 2 * radius further for each next one. */
  function Centre(radius: int, k: int): int
    decreases k
  {
    if k <= 0 then radius else Centre(radius, k - 1) + 2 * radius
  }

  /** The accumulated centre is radius * (2 * k + 1): cells are 2 * radius wide, and each is
      drawn at its middle. */
  lemma {:induction false} CentreClosedForm(radius: int, k: nat)
    ensures Centre(radius, k) == radius * (2 * k + 1)
    decreases k
  {
    if k > 0 {
      CentreClosedForm(radius, k - 1);
      assert radius * (2 * k + 1) == radius * (2 * (k - 1) + 1) + 2 * radius;
    }
  }

  /** A live cell at row r, column c is drawn centred at x = radius * (2c + 1),
      y = radius * (2r + 1), with the cell's radius and lifespan. */
  lemma DatumPosition(radius: int, e: LiveCell)
    requires e.row >= 0 && e.col >= 0
    ensures Datum(radius, e) ==
      SvgDatum(radius * (2 * e.col + 1), radius * (2 * e.row + 1), radius, e.lifespan)
  {
    CentreClosedForm(radius, e.col);
    CentreClosedForm(radius, e.row);
  }

  class World {
    const rows: int
    const cols: int
    const radius: int
    const width: int
    const height: int
    var grid: seq<seq<Cell>>
    /** Whether a next tick is scheduled: the `scenario` timeout handle is set. */
    var running: bool
    /** Proof bookkeeping: the position at which each cell of the grid sits. */
    ghost var place: map<Cell, (int, int)>

    /** The grid has `rows` rows of `cols` cells. */
    ghost predicate Shaped()
      reads this`grid
    {
      && |grid| == Extent(rows)
      && (forall r :: 0 <= r < |grid| ==> |grid[r]| == Extent(cols))
    }

    /** The grid has been initialised: `rows` rows of `cols` cells, no cell at two positions
        (each cell is recorded in `place` at its own position). */
    ghost predicate Valid()
      reads this`grid, this`place
    {
      && Shaped()
      && forall r, c :: 0 <= r < |grid| && 0 <= c < |grid[r]| ==> grid[r][c] in place && place[grid[r][c]] == (r, c)
    }

    /** The cell objects of the grid. */
    ghost function Footprint(): set<Cell>
      reads this`grid
    {
      set r, c | 0 <= r < |grid| && 0 <= c < |grid[r]| :: grid[r][c]
    }

    /** The states of all cells, as a board. */
    ghost function Board(): (b: Board)
      reads this`grid, Footprint()
      ensures |b| == |grid| && forall r :: 0 <= r < |grid| ==> |b[r]| == |grid[r]|
      ensures forall r, c {:trigger grid[r][c]} :: 0 <= r < |grid| && 0 <= c < |grid[r]| ==> b[r][c] == grid[r][c].Value()
    {
      Values(grid)
    }

    /** `new World(rows, cols, cellRadius)`: falsy arguments take the defaults 50, 50 and 10,
        the canvas is cols * 2 * radius wide and rows * 2 * radius high, the grid is empty. */
    constructor (rows: int, cols: int, cellRadius: int)
      ensures this.rows == OrDefault(rows, 50) && this.cols == OrDefault(cols, 50)
      ensures radius == OrDefault(cellRadius, 10)
      ensures this.rows != 0 && this.cols != 0 && radius != 0
      ensures width == this.cols * 2 * radius && height == this.rows * 2 * radius
      ensures grid == [] && !running
    {
      this.rows := OrDefault(rows, 50);
      this.cols := OrDefault(cols, 50);
      radius := OrDefault(cellRadius, 10);
      width := OrDefault(cols, 50) * 2 * OrDefault(cellRadius, 10);
      height := OrDefault(rows, 50) * 2 * OrDefault(cellRadius, 10);
      grid := [];
      running := false;
      place := map[];
    }

    /** Replaces the grid by `rows` rows of `cols` fresh dead cells. */
    method InitializeGrid()
      modifies this
      ensures Valid() && fresh(Footprint())
      ensures Board() == Blank(Extent(rows), Extent(cols))
      ensures running == old(running)
    {
      grid := [];
      var r := 0;
      while r < rows
        invariant 0 <= r <= Extent(rows) && |grid| == r
        invariant forall i :: 0 <= i < r ==> |grid[i]| == Extent(cols)
        invariant forall i, j :: 0 <= i < r && 0 <= j < |grid[i]| ==> fresh(grid[i][j])
        invariant forall i, j :: 0 <= i < r && 0 <= j < |grid[i]| ==> grid[i][j].Value() == Fresh(false)
        invariant forall i, j :: 0 <= i < r && 0 <= j < |grid[i]| ==>
                    grid[i][j] in place && place[grid[i][j]] == (i, j)
        invariant running == old(running)
      {
        var row: seq<Cell> := [];
        var c := 0;
        ghost var g := grid;
        while c < cols
          invariant grid == g && running == old(running)
          invariant 0 <= c <= Extent(cols) && |row| == c
          invariant forall j :: 0 <= j < c ==> fresh(row[j])
          invariant forall j :: 0 <= j < c ==> row[j].Value() == Fresh(false)
          invariant forall j :: 0 <= j < c ==> row[j] in place && place[row[j]] == (r, j)
          invariant forall i, j :: 0 <= i < r && 0 <= j < |grid[i]| ==> fresh(grid[i][j])
          invariant forall i, j :: 0 <= i < r && 0 <= j < |grid[i]| ==> grid[i][j].Value() == Fresh(false)
          invariant forall i, j :: 0 <= i < r && 0 <= j < |grid[i]| ==>
                      grid[i][j] in place && place[grid[i][j]] == (i, j)
        {
          var cell := new Cell();
          place := place[cell := (r, c)];
          row := row + [cell];
          c := c + 1;
        }
        grid := grid + [row];
        r := r + 1;
      }
      BlankBoard();
    }

    /** A shaped grid of fresh dead cells holds the blank board. */
    lemma BlankBoard()
      requires Shaped()
      requires forall r, c :: 0 <= r < |grid| && 0 <= c < |grid[r]| ==> grid[r][c].Value() == Fresh(false)
      ensures Board() == Blank(Extent(rows), Extent(cols))
    {
      forall r, c | InGrid(Board(), r, c)
        ensures Board()[r][c] == Blank(Extent(rows), Extent(cols))[r][c]
      {
        assert grid[r][c].Value() == Fresh(false);
      }
      BoardExt(Board(), Blank(Extent(rows), Extent(cols)));
    }

    /** Spawns every cell the seeder accepts and kills every other one. */
    method SeedGrid(seeder: (int, int) -> bool)
      requires Valid()
      modifies Footprint()
      ensures Board() == Seeded(old(Board()), seeder)
    {
      ghost var b0 := Board();
      var g: seq<seq<Cell>> := grid;
      var r := 0;
      while r < rows
        invariant 0 <= r <= |g| && grid == g
        invariant forall i, j :: 0 <= i < |g| && 0 <= j < |g[i]| ==>
          g[i][j].Value() == if i < r then SeededCell(b0[i][j], seeder(i, j)) else b0[i][j]
      {
        var c := 0;
        while c < cols
          invariant 0 <= c <= |g[r]|
          invariant forall i, j :: 0 <= i < |g| && 0 <= j < |g[i]| ==>
            g[i][j].Value() == if i < r || (i == r && j < c) then SeededCell(b0[i][j], seeder(i, j)) else b0[i][j]
        {
          assert forall i, j :: 0 <= i < |g| && 0 <= j < |g[i]| && g[i][j] == g[r][c] ==> i == r && j == c;
          if seeder(r, c) {
            var _ := g[r][c].Spawn();
          } else {
            var _ := g[r][c].Kill();
          }
          c := c + 1;
        }
        r := r + 1;
      }
      SeededBoard(b0, seeder);
    }

    /** The board after every cell of `b0` has been seeded. */
    lemma SeededBoard(b0: Board, seeder: (int, int) -> bool)
      requires |b0| == |grid| && forall r :: 0 <= r < |grid| ==> |b0[r]| == |grid[r]|
      requires forall r, c :: 0 <= r < |grid| && 0 <= c < |grid[r]| ==>
        grid[r][c].Value() == SeededCell(b0[r][c], seeder(r, c))
      ensures Board() == Seeded(b0, seeder)
    {
      forall r, c | InGrid(Board(), r, c)
        ensures Board()[r][c] == Seeded(b0, seeder)[r][c]
      {
        assert grid[r][c].Value() == SeededCell(b0[r][c], seeder(r, c));
      }
      BoardExt(Board(), Seeded(b0, seeder));
    }

    /** The page's `init`: a fresh grid seeded by `seeder` (the drawing surface is not modelled). */
    method Init(seeder: (int, int) -> bool)
      modifies this
      ensures Valid() && fresh(Footprint()) && running == old(running)
      ensures Board() == Seeded(Blank(Extent(rows), Extent(cols)), seeder)
    {
      InitializeGrid();
      SeedGrid(seeder);
    }

    /** Spawns the listed cells in order. A point outside the grid makes the source throw a
        TypeError; here the method then stops and answers false, keeping the spawns before it. */
    method SeedFromTupleList(tuples: seq<(int, int)>) returns (ok: bool)
      requires Valid()
      modifies Footprint()
      ensures ok <==> InRangePrefix(old(Board()), tuples) == |tuples|
      ensures Board() == SpawnedAt(old(Board()), tuples[..InRangePrefix(old(Board()), tuples)])
    {
      ghost var b0 := Board();
      ghost var k := InRangePrefix(b0, tuples);
      ghost var seen: seq<(int, int)> := [];
      var g: seq<seq<Cell>> := grid;
      var i := 0;
      while i < |tuples|
        invariant 0 <= i <= k && grid == g && seen == tuples[..i]
        invariant forall r, c :: 0 <= r < |g| && 0 <= c < |g[r]| ==>
          g[r][c].Value() == if (r, c) in seen then Spawned(b0[r][c]) else b0[r][c]
      {
        var point := tuples[i];
        if !(0 <= point.0 < |g| && 0 <= point.1 < |g[point.0]|) {
          assert i == k;
          SpawnedBoard(b0, seen);
          return false;
        }
        assert forall r, c :: 0 <= r < |g| && 0 <= c < |g[r]| && g[r][c] == g[point.0][point.1] ==> r == point.0 && c == point.1;
        var _ := g[point.0][point.1].Spawn();
        seen := seen + [point];
        i := i + 1;
      }
      assert i == k == |tuples| && seen == tuples;
      SpawnedBoard(b0, seen);
      ok := true;
    }

    /** The board after spawning the cells at `seen` on the board `b0`. */
    lemma SpawnedBoard(b0: Board, seen: seq<(int, int)>)
      requires |b0| == |grid| && forall r :: 0 <= r < |grid| ==> |b0[r]| == |grid[r]|
      requires forall r, c :: 0 <= r < |grid| && 0 <= c < |grid[r]| ==>
        grid[r][c].Value() == if (r, c) in seen then Spawned(b0[r][c]) else b0[r][c]
      ensures Board() == SpawnedAt(b0, seen)
    {
      forall r, c | InGrid(Board(), r, c)
        ensures Board()[r][c] == SpawnedAt(b0, seen)[r][c]
      {
        assert grid[r][c].Value() == if (r, c) in seen then Spawned(b0[r][c]) else b0[r][c];
      }
      BoardExt(Board(), SpawnedAt(b0, seen));
    }

    /** The live cells among the eight positions around (currRow, currCol) that lie inside
        the grid. Any coordinates are accepted: positions outside the grid are skipped. */
    method FindLivingNeighbors(currRow: int, currCol: int) returns (livingNeighbors: nat)
      requires Shaped()
      ensures livingNeighbors == Neighbors(Board(), currRow, currCol)
    {
      ghost var b := Board();
      livingNeighbors := 0;
      var r := currRow - 1;
      while r <= currRow + 1
        invariant currRow - 1 <= r <= currRow + 2
        invariant livingNeighbors == WindowScan(b, currRow, currCol, r)
      {
        var c := currCol - 1;
        while c <= currCol + 1
          invariant currCol - 1 <= c <= currCol + 2
          invariant livingNeighbors == WindowScan(b, currRow, currCol, r) + RowScan(b, currRow, currCol, r, c)
        {
          if (r >= 0 && r < rows) && (c >= 0 && c < cols) && !(r == currRow && c == currCol) {
            if grid[r][c].IsAlive() {
              livingNeighbors := livingNeighbors + 1;
            }
          }
          c := c + 1;
        }
        r := r + 1;
      }
      ScanIsNeighbors(b, currRow, currCol);
    }

    /** The census: every cell's neighbour count, read from the grid without changing it. */
    method GetWorldData() returns (census: seq<seq<nat>>)
      requires Shaped()
      ensures census == Census(Board())
    {
      ghost var b := Board();
      census := [];
      var r := 0;
      while r < rows
        invariant 0 <= r <= |b| && census == Census(b)[..r]
      {
        var row := RowCensus(r);
        BoardUnchanged();
        census := census + [row];
        r := r + 1;
      }
      assert Census(b)[..|b|] == Census(b);
    }

    /** The inner loop of getWorldData: the neighbour counts of row r, left to right. */
    method RowCensus(r: nat) returns (row: seq<nat>)
      requires Shaped() && r < |grid|
      ensures row == Census(Board())[r]
    {
      ghost var b := Board();
      row := [];
      var c := 0;
      while c < cols
        invariant 0 <= c <= |b[r]| && row == CensusRow(b, r, c)
      {
        var n := FindLivingNeighbors(r, c);
        BoardUnchanged();
        row := row + [n];
        c := c + 1;
      }
      CensusRowFacts(b, r, c);
      assert row == Census(b)[r];
      BoardUnchanged();
    }

    /** The board reads only the grid and its cells: when neither changed, neither did it. */
    twostate lemma BoardUnchanged()
      requires unchanged(this`grid)
      requires forall r, c :: 0 <= r < |grid| && 0 <= c < |grid[r]| ==> unchanged(grid[r][c])
      ensures Board() == old(Board())
    {
      assert Values(grid) == old(Values(grid));
    }

    /** One cell's rule, applied in place. */
    method ApplyRules(currentCell: Cell, livingNeighbors: int)
      modifies currentCell
      ensures currentCell.Value() == Rule(old(currentCell.Value()), livingNeighbors)
    {
      if currentCell.IsAlive() && livingNeighbors < 2 {
        var _ := currentCell.Kill();
      } else if currentCell.IsAlive() && livingNeighbors > 3 {
        var _ := currentCell.Kill();
      } else if !currentCell.IsAlive() && livingNeighbors == 3 {
        var _ := currentCell.Spawn();
      } else {
        var _ := currentCell.IncrementLifespan();
      }
    }

    /** One generation: the census is taken first, then every cell is updated from it, so the
        result is Step of the board before the call. Returns the census. */
    method Update() returns (worldData: seq<seq<nat>>)
      requires Valid()
      modifies Footprint()
      ensures worldData == Census(old(Board()))
      ensures Board() == Step(old(Board()))
    {
      worldData := GetWorldData();
      ghost var b0 := Board();
      assert b0 == old(Board());
      ApplyCensus(worldData);
      SteppedBoard(b0, worldData);
    }

    /** The loops of update: every cell gets the rule with its own entry of the census, which
        was taken before the first cell changed. */
    method ApplyCensus(census: seq<seq<nat>>)
      requires Valid()
      requires |census| == |grid| && forall r :: 0 <= r < |grid| ==> |census[r]| == |grid[r]|
      modifies Footprint()
      ensures forall r, c :: 0 <= r < |grid| && 0 <= c < |grid[r]| ==>
        grid[r][c].Value() == Rule(old(grid[r][c].Value()), census[r][c])
    {
      var g: seq<seq<Cell>> := grid;
      ghost var at := place;
      assert forall i, j :: 0 <= i < |g| && 0 <= j < |g[i]| ==> g[i][j] in at && at[g[i][j]] == (i, j);
      var r := 0;
      while r < rows
        invariant 0 <= r <= |g| && grid == g
        invariant forall i, j :: 0 <= i < |g| && 0 <= j < |g[i]| ==>
          g[i][j].Value() == if i < r then Rule(old(g[i][j].Value()), census[i][j]) else old(g[i][j].Value())
      {
        var c := 0;
        while c < cols
          invariant 0 <= c <= |g[r]|
          invariant forall i, j :: 0 <= i < |g| && 0 <= j < |g[i]| ==>
            g[i][j].Value() == if i < r || (i == r && j < c) then Rule(old(g[i][j].Value()), census[i][j]) else old(g[i][j].Value())
        {
          var currentCell := g[r][c];
          assert forall i, j :: 0 <= i < |g| && 0 <= j < |g[i]| && g[i][j] == currentCell ==> at[g[i][j]] == at[currentCell];
          ApplyRules(currentCell, census[r][c]);
          c := c + 1;
        }
        r := r + 1;
      }
    }

    /** The board after every cell of `b0` has had the rule applied with its census entry. */
    lemma SteppedBoard(b0: Board, census: seq<seq<nat>>)
      requires census == Census(b0)
      requires |b0| == |grid| && forall r :: 0 <= r < |grid| ==> |b0[r]| == |grid[r]|
      requires forall r, c :: 0 <= r < |grid| && 0 <= c < |grid[r]| ==>
        grid[r][c].Value() == Rule(b0[r][c], census[r][c])
      ensures Board() == Step(b0)
    {
      forall r, c | InGrid(Board(), r, c)
        ensures Board()[r][c] == Step(b0)[r][c]
      {
        assert grid[r][c].Value() == Rule(b0[r][c], census[r][c]);
      }
      BoardExt(Board(), Step(b0));
    }

    /** The live cells in row-major order with their pixel centres and lifespans. */
    method CreateSVGData() returns (data: seq<SvgDatum>)
      requires Shaped()
      ensures data == SvgData(radius, LiveCells(Board()))
    {
      ghost var b := Board();
      data := [];
      var currRowLen := 0;
      var r := 0;
      while r < rows
        invariant 0 <= r <= |b|
        invariant currRowLen == if r == 0 then 0 else Centre(radius, r - 1)
        invariant data == SvgData(radius, LiveInRows(b, r))
      {
        var rowOffset := if r == 0 then radius else 2 * radius;
        currRowLen := currRowLen + rowOffset;
        var row := RowSVGData(r, currRowLen);
        BoardUnchanged();
        SvgDataConcat(radius, LiveInRows(b, r), LiveInRow(b, r, |b[r]|));
        data := data + row;
        r := r + 1;
      }
      BoardUnchanged();
    }

    /** The inner loop of createSVGData: the entries of row r's live cells, left to right, all
        drawn at the height currRowLen the outer loop has reached. */
    method RowSVGData(r: nat, currRowLen: int) returns (row: seq<SvgDatum>)
      requires Shaped() && r < |grid| && currRowLen == Centre(radius, r)
      ensures row == SvgData(radius, LiveInRow(Board(), r, |grid[r]|))
    {
      ghost var b := Board();
      row := [];
      var currColLen := 0;
      var c := 0;
      while c < cols
        invariant 0 <= c <= |b[r]|
        invariant currColLen == if c == 0 then 0 else Centre(radius, c - 1)
        invariant row == SvgData(radius, LiveInRow(b, r, c))
      {
        var colOffset := if c == 0 then radius else 2 * radius;
        currColLen := currColLen + colOffset;
        assert currColLen == Centre(radius, c);
        var currCell := grid[r][c];
        assert currCell.Value() == b[r][c];
        SvgDataRowStep(radius, b, r, c, currColLen, currRowLen);
        if currCell.IsAlive() {
          row := row + [SvgDatum(currColLen, currRowLen, radius, currCell.GetLifespan())];
        }
        c := c + 1;
      }
      BoardUnchanged();
    }

    /** run: one generation, then the next tick is scheduled. */
    method Run()
      requires Valid()
      modifies this`running, Footprint()
      ensures grid == old(grid) && Valid()
      ensures Board() == Step(old(Board()))
      ensures running
    {
      // The flag is set first: the generation never reads it, so the order is not observable.
      running := true;
      var _ := Update();
    }

    /** halt: the pending tick is cancelled; only the running flag changes. */
    method Halt()
      modifies this`running
      ensures !running
    {
      running := false;
    }

    /** After halt, any number of timer firings perform no generation: the board stays as
        it was and the world stays valid and halted. */
    method HaltFreezes(k: nat)
      requires Valid()
      modifies this`running, Footprint()
      ensures grid == old(grid) && Valid() && !running
      ensures Board() == old(Board())
    {
      Halt();
      var i := 0;
      while i < k
        invariant 0 <= i <= k
        invariant grid == old(grid) && Valid() && !running
        invariant Board() == old(Board())
      {
        Tick();
        i := i + 1;
      }
    }

    /** The scheduled callback firing after the interval: it exists only while the handle is
        set, so after halt a tick performs no generation. */
    method Tick()
      requires Valid()
      modifies this`running, Footprint()
      ensures grid == old(grid) && Valid() && running == old(running)
      ensures Board() == if old(running) then Step(old(Board())) else old(Board())
    {
      if running {
        Run();
      }
    }
  }
}
