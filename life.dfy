/** The value-level meaning of the world in js/world.js: boards of cell states, the bounded
    Moore-neighbourhood count, the B3/S23 rule as applyRules writes it, one generation, and
    the row-major list of live cells. The World class is proved against these functions. */
module Life {
  import opened Cells

  /** A grid of cell states, indexed [row][col]. */
  type Board = seq<seq<CellState>>

  /** One live cell of a snapshot: its position and its lifespan. */
  datatype LiveCell = LiveCell(row: int, col: int, lifespan: nat)

  predicate InGrid(b: Board, r: int, c: int)
  {
    0 <= r < |b| && 0 <= c < |b[r]|
  }

  /** `b` has `rows` rows of `cols` cells each. */
  ghost predicate Shape(b: Board, rows: nat, cols: nat)
  {
    |b| == rows && forall r :: 0 <= r < |b| ==> |b[r]| == cols
  }

  /** 1 when (r, c) lies inside the grid and holds a live cell, else 0: hard edges. */
  function LiveAt(b: Board, r: int, c: int): nat
  {
    if InGrid(b, r, c) && b[r][c].living then 1 else 0
  }

  /** The number of live cells among the eight positions adjacent to (r, c) that lie inside
      the grid; positions outside do not wrap around. */
  function Neighbors(b: Board, r: int, c: int): (n: nat)
    ensures n <= 8
  {
    LiveAt(b, r - 1, c - 1) + LiveAt(b, r - 1, c) + LiveAt(b, r - 1, c + 1) +
    LiveAt(b, r, c - 1)                           + LiveAt(b, r, c + 1) +
    LiveAt(b, r + 1, c - 1) + LiveAt(b, r + 1, c) + LiveAt(b, r + 1, c + 1)
  }

  /** --- The scan that findLivingNeighbors performs over the 3x3 window around (r, c). --- */

  /** What position (i, j) adds to the count for (r, c): in range, not the centre, alive. */
  function Counted(b: Board, r: int, c: int, i: int, j: int): nat
  {
    if InGrid(b, i, j) && !(i == r && j == c) && b[i][j].living then 1 else 0
  }

  /** The count over columns c - 1 .. j - 1 of row i. */
  function RowScan(b: Board, r: int, c: int, i: int, j: int): nat
    requires c - 1 <= j
    decreases j - (c - 1)
  {
    if j == c - 1 then 0 else RowScan(b, r, c, i, j - 1) + Counted(b, r, c, i, j - 1)
  }

  /** The count over rows r - 1 .. i - 1 of the window. */
  function WindowScan(b: Board, r: int, c: int, i: int): nat
    requires r - 1 <= i
    decreases i - (r - 1)
  {
    if i == r - 1 then 0 else WindowScan(b, r, c, i - 1) + RowScan(b, r, c, i - 1, c + 2)
  }

  /** The full window scan, skipping the centre, is the neighbour count. */
  lemma ScanIsNeighbors(b: Board, r: int, c: int)
    ensures WindowScan(b, r, c, r + 2) == Neighbors(b, r, c)
  {
    forall i | r - 1 <= i <= r + 1
      ensures RowScan(b, r, c, i, c + 2) ==
              Counted(b, r, c, i, c - 1) + Counted(b, r, c, i, c) + Counted(b, r, c, i, c + 1)
    {
      assert RowScan(b, r, c, i, c) == Counted(b, r, c, i, c - 1);
      assert RowScan(b, r, c, i, c + 1) == RowScan(b, r, c, i, c) + Counted(b, r, c, i, c);
    }
    assert WindowScan(b, r, c, r) == RowScan(b, r, c, r - 1, c + 2);
    assert WindowScan(b, r, c, r + 1) == WindowScan(b, r, c, r) + RowScan(b, r, c, r, c + 2);
    assert Counted(b, r, c, r, c) == 0;
    forall i, j | (i, j) != (r, c)
      ensures Counted(b, r, c, i, j) == LiveAt(b, i, j)
    {
    }
  }

  /** --- Properties of the neighbour count. --- */

  /** The cell itself is never counted: replacing it leaves its own count unchanged. */
  lemma NeighborsIgnoreSelf(b: Board, r: int, c: int, s: CellState)
    requires InGrid(b, r, c)
    ensures Neighbors(b[r := b[r][c := s]], r, c) == Neighbors(b, r, c)
  {
    var b' := b[r := b[r][c := s]];
    forall i, j | (i, j) != (r, c)
      ensures LiveAt(b', i, j) == LiveAt(b, i, j)
    {
      if InGrid(b, i, j) {
        assert b'[i][j] == b[i][j];
      }
    }
    assert LiveAt(b', r - 1, c - 1) == LiveAt(b, r - 1, c - 1);
    assert LiveAt(b', r - 1, c) == LiveAt(b, r - 1, c);
    assert LiveAt(b', r - 1, c + 1) == LiveAt(b, r - 1, c + 1);
    assert LiveAt(b', r, c - 1) == LiveAt(b, r, c - 1);
    assert LiveAt(b', r, c + 1) == LiveAt(b, r, c + 1);
    assert LiveAt(b', r + 1, c - 1) == LiveAt(b, r + 1, c - 1);
    assert LiveAt(b', r + 1, c) == LiveAt(b, r + 1, c);
    assert LiveAt(b', r + 1, c + 1) == LiveAt(b, r + 1, c + 1);
  }

  /** Hard edges: a corner cell has at most 3 neighbours, an edge cell at most 5. */
  lemma NeighborsAtBorder(b: Board, rows: nat, cols: nat, r: int, c: int)
    requires Shape(b, rows, cols) && InGrid(b, r, c)
    ensures (r == 0 || r == rows - 1) && (c == 0 || c == cols - 1) ==> Neighbors(b, r, c) <= 3
    ensures (r == 0 || r == rows - 1 || c == 0 || c == cols - 1) ==> Neighbors(b, r, c) <= 5
  {
  }

  /** --- The rule (applyRules) and one generation (update). --- */

  /** The next state of one cell given its live-neighbour count, branch by branch as written:
      the last branch increments the lifespan of every cell not killed or born, dead ones
      included. */
  function Rule(s: CellState, n: int): CellState
  {
    if s.living && n < 2 then Killed(s)
    else if s.living && n > 3 then Killed(s)
    else if !s.living && n == 3 then Spawned(s)
    else Incremented(s)
  }

  /** The rule is B3/S23 on the living flag, and its effect on the lifespan. */
  lemma RuleIsB3S23(s: CellState, n: int)
    ensures Rule(s, n).living <==> n == 3 || (s.living && n == 2)
    ensures s.living && (n == 2 || n == 3) ==> Rule(s, n) == CellState(true, s.lifespan + 1)
    ensures s.living && (n < 2 || n > 3) ==> Rule(s, n) == CellState(false, s.lifespan)
    ensures !s.living && n == 3 ==> Rule(s, n) == CellState(true, 0)
    ensures !s.living && n != 3 ==> Rule(s, n) == CellState(false, s.lifespan + 1)
  {
  }

  /** The census getWorldData takes: every cell's neighbour count. */
  function Census(b: Board): seq<seq<nat>>
  {
    seq(|b|, r requires 0 <= r < |b| => seq(|b[r]|, c requires 0 <= c < |b[r]| => Neighbors(b, r, c)))
  }

  /** The neighbour counts of columns 0 .. c-1 of row r, gathered left to right. */
  function CensusRow(b: Board, r: int, c: nat): seq<nat>
    decreases c
  {
    if c == 0 then [] else CensusRow(b, r, c - 1) + [Neighbors(b, r, c - 1)]
  }

  /** Gathering a row column by column yields each column's neighbour count. */
  lemma {:induction false} CensusRowFacts(b: Board, r: int, c: nat)
    ensures |CensusRow(b, r, c)| == c
    ensures forall j :: 0 <= j < c ==> CensusRow(b, r, c)[j] == Neighbors(b, r, j)
  {
    if c > 0 {
      CensusRowFacts(b, r, c - 1);
    }
  }

  /** One generation: the rule applied to every cell with the census of the board as it was
      before the step, so no cell sees a neighbour's new state. */
  function Step(b: Board): Board
  {
    var census := Census(b);
    seq(|b|, r requires 0 <= r < |b| =>
      seq(|b[r]|, c requires 0 <= c < |b[r]| => Rule(b[r][c], census[r][c])))
  }

  /** `k` generations. */
  function Generations(b: Board, k: nat): Board
    decreases k
  {
    if k == 0 then b else Generations(Step(b), k - 1)
  }

  lemma StepShape(b: Board, rows: nat, cols: nat)
    requires Shape(b, rows, cols)
    ensures Shape(Step(b), rows, cols)
  {
  }

  /** Simultaneous update: a cell's next state depends only on its own state and on the
      living flags of its eight neighbours in the board before the step. */
  lemma StepIsLocal(a: Board, b: Board, rows: nat, cols: nat, r: int, c: int)
    requires Shape(a, rows, cols) && Shape(b, rows, cols) && InGrid(a, r, c)
    requires a[r][c] == b[r][c]
    requires forall i, j :: r - 1 <= i <= r + 1 && c - 1 <= j <= c + 1 && InGrid(a, i, j) ==>
               a[i][j].living == b[i][j].living
    ensures Step(a)[r][c] == Step(b)[r][c]
  {
    assert Neighbors(a, r, c) == Neighbors(b, r, c) by {
      forall i, j | r - 1 <= i <= r + 1 && c - 1 <= j <= c + 1
        ensures LiveAt(a, i, j) == LiveAt(b, i, j)
      {
        assert InGrid(a, i, j) == InGrid(b, i, j);
      }
    }
  }

  /** --- The live-cell set and the end-to-end patterns. --- */

  ghost function LiveSet(b: Board): set<(int, int)>
  {
    set r, c | 0 <= r < |b| && 0 <= c < |b[r]| && b[r][c].living :: (r, c)
  }

  /** Reads the living flag of any position off a known live set. */
  lemma LiveAtFromSet(b: Board, s: set<(int, int)>, r: int, c: int)
    requires LiveSet(b) == s
    ensures LiveAt(b, r, c) == In(s, r, c)
  {
    if InGrid(b, r, c) && b[r][c].living {
      assert (r, c) in LiveSet(b);
    }
  }

  function In(s: set<(int, int)>, r: int, c: int): nat
  {
    if (r, c) in s then 1 else 0
  }

  /** The neighbour count of (r, c) written with membership in a known live set. */
  lemma NeighborsFromSet(b: Board, s: set<(int, int)>, r: int, c: int)
    requires LiveSet(b) == s
    ensures Neighbors(b, r, c) ==
      In(s, r - 1, c - 1) + In(s, r - 1, c) + In(s, r - 1, c + 1) +
      In(s, r, c - 1)                       + In(s, r, c + 1) +
      In(s, r + 1, c - 1) + In(s, r + 1, c) + In(s, r + 1, c + 1)
  {
    LiveAtFromSet(b, s, r - 1, c - 1);
    LiveAtFromSet(b, s, r - 1, c);
    LiveAtFromSet(b, s, r - 1, c + 1);
    LiveAtFromSet(b, s, r, c - 1);
    LiveAtFromSet(b, s, r, c + 1);
    LiveAtFromSet(b, s, r + 1, c - 1);
    LiveAtFromSet(b, s, r + 1, c);
    LiveAtFromSet(b, s, r + 1, c + 1);
  }

  /** B3/S23 on booleans. */
  predicate NextAlive(alive: bool, n: int)
  {
    n == 3 || (alive && n == 2)
  }

  /** The live set after one step, given the live set before it and the outcome of the rule
      at every position. */
  lemma StepLiveSet(b: Board, rows: nat, cols: nat, s: set<(int, int)>, s': set<(int, int)>)
    requires Shape(b, rows, cols) && LiveSet(b) == s
    requires forall p :: p in s' ==> 0 <= p.0 < rows && 0 <= p.1 < cols
    requires forall r, c :: 0 <= r < rows && 0 <= c < cols ==>
      ((r, c) in s' <==> NextAlive((r, c) in s, Neighbors(b, r, c)))
    ensures LiveSet(Step(b)) == s'
  {
    var b' := Step(b);
    forall p | p in LiveSet(b')
      ensures p in s'
    {
      var r, c := p.0, p.1;
      RuleIsB3S23(b[r][c], Neighbors(b, r, c));
      assert (r, c) in s <==> b[r][c].living;
    }
    forall p | p in s'
      ensures p in LiveSet(b')
    {
      var r, c := p.0, p.1;
      RuleIsB3S23(b[r][c], Neighbors(b, r, c));
      assert (r, c) in s <==> b[r][c].living;
      assert b'[r][c].living;
    }
  }

  /** A grid in which nothing lives stays so, and (as the code is written) every dead cell
      still ages by one generation. */
  lemma AllDeadStaysDead(b: Board)
    requires LiveSet(b) == {}
    ensures |Step(b)| == |b|
    ensures forall r :: 0 <= r < |b| ==> |Step(b)[r]| == |b[r]|
    ensures forall r, c :: InGrid(b, r, c) ==> Step(b)[r][c] == CellState(false, b[r][c].lifespan + 1)
    ensures LiveSet(Step(b)) == {}
  {
    forall r, c | InGrid(b, r, c)
      ensures Step(b)[r][c] == CellState(false, b[r][c].lifespan + 1)
    {
      NeighborsFromSet(b, {}, r, c);
      LiveAtFromSet(b, {}, r, c);
    }
  }

  /** A live set that one step keeps on every board of the shape is kept by any number of
      steps. */
  lemma {:induction false} StillLifeForever(b: Board, rows: nat, cols: nat, s: set<(int, int)>, k: nat)
    requires Shape(b, rows, cols) && LiveSet(b) == s
    requires forall b' :: Shape(b', rows, cols) && LiveSet(b') == s ==> LiveSet(Step(b')) == s
    ensures LiveSet(Generations(b, k)) == s
    decreases k
  {
    if k != 0 {
      StepShape(b, rows, cols);
      StillLifeForever(Step(b), rows, cols, s, k - 1);
    }
  }

  /** An empty grid stays empty forever. */
  lemma AllDeadForever(b: Board, rows: nat, cols: nat, k: nat)
    requires Shape(b, rows, cols) && LiveSet(b) == {}
    ensures LiveSet(Generations(b, k)) == {}
  {
    forall b' | Shape(b', rows, cols) && LiveSet(b') == {}
      ensures LiveSet(Step(b')) == {}
    {
      AllDeadStaysDead(b');
    }
    StillLifeForever(b, rows, cols, {}, k);
  }

  function Block(r: int, c: int): set<(int, int)>
  {
    {(r, c), (r, c + 1), (r + 1, c), (r + 1, c + 1)}
  }

  /** Membership in a block as two interval tests. */
  lemma InBlock(r0: int, c0: int, r: int, c: int)
    ensures In(Block(r0, c0), r, c) == if r0 <= r <= r0 + 1 && c0 <= c <= c0 + 1 then 1 else 0
  {
  }

  /** The rule keeps each position of a lone block as it was. */
  lemma BlockCell(b: Board, r0: int, c0: int, r: int, c: int)
    requires LiveSet(b) == Block(r0, c0)
    ensures (r, c) in Block(r0, c0) <==> NextAlive((r, c) in Block(r0, c0), Neighbors(b, r, c))
  {
    NeighborsFromSet(b, Block(r0, c0), r, c);
    InBlock(r0, c0, r, c);
    InBlock(r0, c0, r - 1, c - 1);
    InBlock(r0, c0, r - 1, c);
    InBlock(r0, c0, r - 1, c + 1);
    InBlock(r0, c0, r, c - 1);
    InBlock(r0, c0, r, c + 1);
    InBlock(r0, c0, r + 1, c - 1);
    InBlock(r0, c0, r + 1, c);
    InBlock(r0, c0, r + 1, c + 1);
  }

  /** A 2x2 block with nothing else alive is a still life. */
  lemma BlockIsStill(b: Board, rows: nat, cols: nat, r0: nat, c0: nat)
    requires Shape(b, rows, cols) && r0 + 2 <= rows && c0 + 2 <= cols
    requires LiveSet(b) == Block(r0, c0)
    ensures LiveSet(Step(b)) == Block(r0, c0)
  {
    forall r, c | 0 <= r < rows && 0 <= c < cols
      ensures (r, c) in Block(r0, c0) <==> NextAlive((r, c) in Block(r0, c0), Neighbors(b, r, c))
    {
      BlockCell(b, r0, c0, r, c);
    }
    StepLiveSet(b, rows, cols, Block(r0, c0), Block(r0, c0));
  }

  /** ... and stays so for any number of generations. */
  lemma BlockStaysForever(b: Board, rows: nat, cols: nat, r0: nat, c0: nat, k: nat)
    requires Shape(b, rows, cols) && r0 + 2 <= rows && c0 + 2 <= cols
    requires LiveSet(b) == Block(r0, c0)
    ensures LiveSet(Generations(b, k)) == Block(r0, c0)
  {
    forall b' | Shape(b', rows, cols) && LiveSet(b') == Block(r0, c0)
      ensures LiveSet(Step(b')) == Block(r0, c0)
    {
      BlockIsStill(b', rows, cols, r0, c0);
    }
    StillLifeForever(b, rows, cols, Block(r0, c0), k);
  }

  function HorizontalBlinker(): set<(int, int)>
  {
    {(1, 0), (1, 1), (1, 2)}
  }

  function VerticalBlinker(): set<(int, int)>
  {
    {(0, 1), (1, 1), (2, 1)}
  }

  /** Membership in the horizontal blinker as interval tests. */
  lemma InHorizontal(r: int, c: int)
    ensures In(HorizontalBlinker(), r, c) == if r == 1 && 0 <= c <= 2 then 1 else 0
    ensures ((r, c) in VerticalBlinker()) == (0 <= r <= 2 && c == 1)
  {
  }

  /** Membership in the vertical blinker as interval tests. */
  lemma InVertical(r: int, c: int)
    ensures In(VerticalBlinker(), r, c) == if 0 <= r <= 2 && c == 1 then 1 else 0
    ensures ((r, c) in HorizontalBlinker()) == (r == 1 && 0 <= c <= 2)
  {
  }

  /** The horizontal blinker turns vertical at every position. */
  lemma BlinkerCellH(b: Board, r: int, c: int)
    requires LiveSet(b) == HorizontalBlinker()
    ensures (r, c) in VerticalBlinker() <==> NextAlive((r, c) in HorizontalBlinker(), Neighbors(b, r, c))
  {
    NeighborsFromSet(b, HorizontalBlinker(), r, c);
    InHorizontal(r - 1, c - 1);
    InHorizontal(r - 1, c);
    InHorizontal(r - 1, c + 1);
    InHorizontal(r, c - 1);
    InHorizontal(r, c);
    InHorizontal(r, c + 1);
    InHorizontal(r + 1, c - 1);
    InHorizontal(r + 1, c);
    InHorizontal(r + 1, c + 1);
  }

  /** The vertical blinker turns horizontal at every position. */
  lemma BlinkerCellV(b: Board, r: int, c: int)
    requires LiveSet(b) == VerticalBlinker()
    ensures (r, c) in HorizontalBlinker() <==> NextAlive((r, c) in VerticalBlinker(), Neighbors(b, r, c))
  {
    NeighborsFromSet(b, VerticalBlinker(), r, c);
    InVertical(r - 1, c - 1);
    InVertical(r - 1, c);
    InVertical(r - 1, c + 1);
    InVertical(r, c - 1);
    InVertical(r, c);
    InVertical(r, c + 1);
    InVertical(r + 1, c - 1);
    InVertical(r + 1, c);
    InVertical(r + 1, c + 1);
  }

  /** A horizontal blinker in the top-left corner of a grid of at least 3x3 turns vertical. */
  lemma BlinkerTurnsVertical(b: Board, rows: nat, cols: nat)
    requires Shape(b, rows, cols) && rows >= 3 && cols >= 3
    requires LiveSet(b) == HorizontalBlinker()
    ensures LiveSet(Step(b)) == VerticalBlinker()
  {
    forall r, c | 0 <= r < rows && 0 <= c < cols
      ensures (r, c) in VerticalBlinker() <==> NextAlive((r, c) in HorizontalBlinker(), Neighbors(b, r, c))
    {
      BlinkerCellH(b, r, c);
    }
    StepLiveSet(b, rows, cols, HorizontalBlinker(), VerticalBlinker());
  }

  /** The vertical blinker turns horizontal again. */
  lemma BlinkerTurnsHorizontal(b: Board, rows: nat, cols: nat)
    requires Shape(b, rows, cols) && rows >= 3 && cols >= 3
    requires LiveSet(b) == VerticalBlinker()
    ensures LiveSet(Step(b)) == HorizontalBlinker()
  {
    forall r, c | 0 <= r < rows && 0 <= c < cols
      ensures (r, c) in HorizontalBlinker() <==> NextAlive((r, c) in VerticalBlinker(), Neighbors(b, r, c))
    {
      BlinkerCellV(b, r, c);
    }
    StepLiveSet(b, rows, cols, VerticalBlinker(), HorizontalBlinker());
  }

  /** s, t, s, t, ...: the k-th entry of the alternation that starts with s. */
  function Alternation(s: set<(int, int)>, t: set<(int, int)>, k: nat): set<(int, int)>
    decreases k
  {
    if k == 0 then s else Alternation(t, s, k - 1)
  }

  /** The alternation shows s at the even positions and t at the odd ones. */
  lemma {:induction false} AlternationParity(s: set<(int, int)>, t: set<(int, int)>, k: nat)
    ensures Alternation(s, t, k) == if k % 2 == 0 then s else t
    decreases k
  {
    if k != 0 {
      AlternationParity(t, s, k - 1);
    }
  }

  /** Two live sets that one step maps onto each other on every board of the shape alternate
      forever. */
  lemma {:induction false} AlternatesForever(b: Board, rows: nat, cols: nat, s: set<(int, int)>, t: set<(int, int)>, k: nat)
    requires Shape(b, rows, cols) && LiveSet(b) == s
    requires forall b' :: Shape(b', rows, cols) && LiveSet(b') == s ==> LiveSet(Step(b')) == t
    requires forall b' :: Shape(b', rows, cols) && LiveSet(b') == t ==> LiveSet(Step(b')) == s
    ensures LiveSet(Generations(b, k)) == Alternation(s, t, k)
    decreases k
  {
    if k != 0 {
      StepShape(b, rows, cols);
      AlternatesForever(Step(b), rows, cols, t, s, k - 1);
    }
  }

  /** The blinker in the top-left corner of any grid of at least 3x3 has period 2, forever. */
  lemma BlinkerOscillates(b: Board, rows: nat, cols: nat, k: nat)
    requires Shape(b, rows, cols) && rows >= 3 && cols >= 3
    requires LiveSet(b) == HorizontalBlinker()
    ensures LiveSet(Generations(b, k)) == if k % 2 == 0 then HorizontalBlinker() else VerticalBlinker()
  {
    forall b' | Shape(b', rows, cols) && LiveSet(b') == HorizontalBlinker()
      ensures LiveSet(Step(b')) == VerticalBlinker()
    {
      BlinkerTurnsVertical(b', rows, cols);
    }
    forall b' | Shape(b', rows, cols) && LiveSet(b') == VerticalBlinker()
      ensures LiveSet(Step(b')) == HorizontalBlinker()
    {
      BlinkerTurnsHorizontal(b', rows, cols);
    }
    AlternatesForever(b, rows, cols, HorizontalBlinker(), VerticalBlinker(), k);
    AlternationParity(HorizontalBlinker(), VerticalBlinker(), k);
  }

  /** --- The row-major snapshot of live cells (createSVGData's order). --- */

  /** Live cells of row r among columns 0 .. c - 1, left to right. */
  function LiveInRow(b: Board, r: nat, c: nat): seq<LiveCell>
    requires r < |b| && c <= |b[r]|
  {
    if c == 0 then []
    else LiveInRow(b, r, c - 1) + (if b[r][c - 1].living then [LiveCell(r, c - 1, b[r][c - 1].lifespan)] else [])
  }

  /** Live cells of rows 0 .. r - 1, row by row. */
  function LiveInRows(b: Board, r: nat): seq<LiveCell>
    requires r <= |b|
  {
    if r == 0 then [] else LiveInRows(b, r - 1) + LiveInRow(b, r - 1, |b[r - 1]|)
  }

  function LiveCells(b: Board): seq<LiveCell>
  {
    LiveInRows(b, |b|)
  }

  /** p comes strictly before q in row-major order. */
  predicate Before(p: LiveCell, q: LiveCell)
  {
    p.row < q.row || (p.row == q.row && p.col < q.col)
  }

  predicate RowMajor(s: seq<LiveCell>)
  {
    forall i, j :: 0 <= i < j < |s| ==> Before(s[i], s[j])
  }

  /** An entry describes a live cell of the board, with its lifespan. */
  predicate Describes(b: Board, e: LiveCell)
  {
    InGrid(b, e.row, e.col) && b[e.row][e.col].living && b[e.row][e.col].lifespan == e.lifespan
  }

  lemma {:induction false} LiveInRowFacts(b: Board, r: nat, c: nat)
    requires r < |b| && c <= |b[r]|
    ensures RowMajor(LiveInRow(b, r, c))
    ensures forall e :: e in LiveInRow(b, r, c) ==> e.row == r && e.col < c && Describes(b, e)
    ensures forall j :: 0 <= j < c && b[r][j].living ==> LiveCell(r, j, b[r][j].lifespan) in LiveInRow(b, r, c)
    decreases c
  {
    if c > 0 {
      LiveInRowFacts(b, r, c - 1);
      var front := LiveInRow(b, r, c - 1);
      var back: seq<LiveCell> := if b[r][c - 1].living then [LiveCell(r, c - 1, b[r][c - 1].lifespan)] else [];
      assert LiveInRow(b, r, c) == front + back;
      forall e: LiveCell | e in front + back
        ensures e.row == r && e.col < c && Describes(b, e)
      {
        if e !in front {
          assert e in back;
        }
      }
      forall i, j | 0 <= i < j < |front + back|
        ensures Before((front + back)[i], (front + back)[j])
      {
        if j >= |front| {
          assert (front + back)[i] in front;
        }
      }
    }
  }

  lemma {:induction false} LiveInRowsFacts(b: Board, r: nat)
    requires r <= |b|
    ensures RowMajor(LiveInRows(b, r))
    ensures forall e :: e in LiveInRows(b, r) ==> e.row < r && Describes(b, e)
    ensures forall i, j :: 0 <= i < r && 0 <= j < |b[i]| && b[i][j].living ==>
              LiveCell(i, j, b[i][j].lifespan) in LiveInRows(b, r)
    decreases r
  {
    if r > 0 {
      LiveInRowsFacts(b, r - 1);
      LiveInRowFacts(b, r - 1, |b[r - 1]|);
      var front, back := LiveInRows(b, r - 1), LiveInRow(b, r - 1, |b[r - 1]|);
      assert LiveInRows(b, r) == front + back;
      forall i, j | 0 <= i < j < |front + back|
        ensures Before((front + back)[i], (front + back)[j])
      {
        if j < |front| {
        } else if i >= |front| {
          assert (front + back)[i] == back[i - |front|];
          assert (front + back)[j] == back[j - |front|];
        } else {
          assert (front + back)[i] in front;
          assert (front + back)[j] in back;
        }
      }
    }
  }

  /** The snapshot lists exactly the live cells with their lifespans, each once, in
      row-major order. */
  lemma LiveCellsExact(b: Board)
    ensures RowMajor(LiveCells(b))
    ensures forall e :: e in LiveCells(b) ==> Describes(b, e)
    ensures forall r, c :: InGrid(b, r, c) && b[r][c].living ==> LiveCell(r, c, b[r][c].lifespan) in LiveCells(b)
  {
    LiveInRowsFacts(b, |b|);
  }

  /** --- Seeding. --- */

  /** A board of `rows` x `cols` fresh dead cells (initializeGrid). */
  function Blank(rows: nat, cols: nat): (b: Board)
    ensures Shape(b, rows, cols)
    ensures LiveSet(b) == {}
  {
    seq(rows, r => seq(cols, c => Fresh(false)))
  }

  /** One cell after seeding: spawned when the seeder accepts its position, killed otherwise. */
  function SeededCell(s: CellState, accepted: bool): CellState
  {
    if accepted then Spawned(s) else Killed(s)
  }

  /** Every cell spawned where the seeder says so and killed elsewhere (seedGrid). */
  function Seeded(b: Board, seeder: (int, int) -> bool): Board
  {
    seq(|b|, r requires 0 <= r < |b| =>
      seq(|b[r]|, c requires 0 <= c < |b[r]| => SeededCell(b[r][c], seeder(r, c))))
  }

  /** After seeding, exactly the positions the seeder accepts live, each with lifespan 0. */
  lemma SeededLiveSet(b: Board, seeder: (int, int) -> bool)
    ensures LiveSet(Seeded(b, seeder)) == set r, c | 0 <= r < |b| && 0 <= c < |b[r]| && seeder(r, c) :: (r, c)
    ensures forall e :: e in LiveCells(Seeded(b, seeder)) ==> e.lifespan == 0
  {
    LiveCellsExact(Seeded(b, seeder));
  }

  /** The listed positions spawned, every other cell unchanged (seedFromTupleList). */
  function SpawnedAt(b: Board, points: seq<(int, int)>): Board
  {
    seq(|b|, r requires 0 <= r < |b| =>
      seq(|b[r]|, c requires 0 <= c < |b[r]| => if (r, c) in points then Spawned(b[r][c]) else b[r][c]))
  }

  /** After spawning at a list of points, the live cells are those that lived before plus the
      listed positions inside the grid; those start over with lifespan 0. */
  lemma SpawnedLiveSet(b: Board, points: seq<(int, int)>)
    ensures LiveSet(SpawnedAt(b, points)) == LiveSet(b) + set p | p in points && InGrid(b, p.0, p.1)
    ensures forall p :: p in points && InGrid(b, p.0, p.1) ==> SpawnedAt(b, points)[p.0][p.1] == CellState(true, 0)
  {
    var after := SpawnedAt(b, points);
    forall p | p in LiveSet(after)
      ensures p in LiveSet(b) || (p in points && InGrid(b, p.0, p.1))
    {
      if p !in points {
        assert after[p.0][p.1] == b[p.0][p.1];
      }
    }
    forall p | p in LiveSet(b) || (p in points && InGrid(b, p.0, p.1))
      ensures p in LiveSet(after)
    {
      assert after[p.0][p.1].living;
    }
  }

  /** The number of leading points that lie inside the grid: the loop in seedFromTupleList
      stops with a TypeError at the first point that does not. */
  function InRangePrefix(b: Board, points: seq<(int, int)>): (k: nat)
    ensures k <= |points|
    ensures forall i :: 0 <= i < k ==> InGrid(b, points[i].0, points[i].1)
    ensures k < |points| ==> !InGrid(b, points[k].0, points[k].1)
  {
    if points == [] || !InGrid(b, points[0].0, points[0].1) then 0
    else 1 + InRangePrefix(b, points[1..])
  }

  /** Two boards of the same shape that agree cell by cell are equal. */
  lemma BoardExt(a: Board, b: Board)
    requires |a| == |b| && forall r :: 0 <= r < |a| ==> |a[r]| == |b[r]|
    requires forall r, c :: InGrid(a, r, c) ==> a[r][c] == b[r][c]
    ensures a == b
  {
    forall r | 0 <= r < |a|
      ensures a[r] == b[r]
    {
    }
  }
}
