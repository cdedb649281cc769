/**
 * Grid model of the solver: the puzzle configuration (block side k, size
 * N = k * k), the N x N grid of integers (0 is an empty cell), its row,
 * column and block views, and the block partition.
 */
module SudokuGrid {
  import opened BaseK

  /** Side of one block; a puzzle has N = k * k rows, columns and blocks. */
  type BlockSide = k: nat | k >= 1 witness 1

  /** The immutable configuration that replaces the solver's module globals. */
  datatype Config = Config(k: BlockSide) {
    function N(): nat { k * k }
  }

  /** A (row, column) coordinate, as the solver's dictionary keys. */
  type Cell = (int, int)

  predicate IsGrid(cfg: Config, g: seq<seq<int>>) {
    |g| == cfg.N() && forall r :: 0 <= r < |g| ==> |g[r]| == cfg.N()
  }

  predicate InRange(cfg: Config, p: Cell) {
    0 <= p.0 < cfg.N() && 0 <= p.1 < cfg.N()
  }

  /** Row-major order on cells: the order in which the solver scans a grid. */
  predicate Before(p: Cell, q: Cell) {
    p.0 < q.0 || (p.0 == q.0 && p.1 < q.1)
  }

  /** The grid with one cell replaced. */
  function SetCell(g: seq<seq<int>>, row: int, col: int, v: int): (r: seq<seq<int>>)
    requires 0 <= row < |g| && 0 <= col < |g[row]|
    ensures |r| == |g| && forall i :: 0 <= i < |g| ==> |r[i]| == |g[i]|
    ensures r[row][col] == v
    ensures forall i, j :: 0 <= i < |g| && 0 <= j < |g[i]| && (i != row || j != col) ==> r[i][j] == g[i][j]
  {
    g[row := g[row][col := v]]
  }

  // ---------------------------------------------------------------------
  // Units of the grid
  // ---------------------------------------------------------------------

  function Row(g: seq<seq<int>>, i: int): (row: seq<int>)
    requires 0 <= i < |g|
    ensures |row| == |g[i]| && forall j :: 0 <= j < |g[i]| ==> row[j] == g[i][j]
  {
    g[i]
  }

  function Column(cfg: Config, g: seq<seq<int>>, i: int): (col: seq<int>)
    requires IsGrid(cfg, g) && 0 <= i < cfg.N()
    ensures |col| == cfg.N() && forall j :: 0 <= j < cfg.N() ==> col[j] == g[j][i]
  {
    seq(|g|, j requires 0 <= j < |g| => g[j][i])
  }

  /**
   * The block partition: block b (counted row of blocks first) has its
   * top-left corner at ((b / k) * k, (b % k) * k); its t-th coordinate
   * walks the block column by column, as the nested comprehension does.
   */
  function Blocks(cfg: Config): (bs: seq<seq<Cell>>)
    ensures |bs| == cfg.N()
    ensures forall b :: 0 <= b < |bs| ==> |bs[b]| == cfg.N()
  {
    var k := cfg.k;
    seq(k * k, b => seq(k * k, t => (t % k + (b / k) * k, t / k + (b % k) * k)))
  }

  /** Index in Blocks of the block holding (row, col). */
  function BlockIndex(cfg: Config, row: int, col: int): int {
    (row / cfg.k) * cfg.k + col / cfg.k
  }

  predicate SameBlock(cfg: Config, p: Cell, q: Cell) {
    p.0 / cfg.k == q.0 / cfg.k && p.1 / cfg.k == q.1 / cfg.k
  }

  /** The values of block b, in the order of its coordinates in Blocks. */
  function BlockValues(cfg: Config, g: seq<seq<int>>, b: int): (vs: seq<int>)
    requires IsGrid(cfg, g) && 0 <= b < cfg.N()
    ensures |vs| == cfg.N()
  {
    BlocksInRange(cfg);
    var bs := Blocks(cfg);
    seq(cfg.N(), t requires 0 <= t < cfg.N() => g[bs[b][t].0][bs[b][t].1])
  }

  /** The values of the block in which (row, col) falls. */
  function BlockAt(cfg: Config, g: seq<seq<int>>, row: int, col: int): (vs: seq<int>)
    requires IsGrid(cfg, g) && InRange(cfg, (row, col))
    ensures |vs| == cfg.N()
  {
    BlockIndexInRange(cfg, row, col);
    BlockValues(cfg, g, BlockIndex(cfg, row, col))
  }

  /**
   * get_block: search the partition for the first block that contains
   * (row, col), then read the values at that block's coordinates.
   */
  method GetBlock(cfg: Config, m: seq<seq<int>>, row: int, col: int) returns (block: seq<int>)
    requires IsGrid(cfg, m) && InRange(cfg, (row, col))
    ensures block == BlockAt(cfg, m, row, col)
  {
    var blocks: seq<seq<Cell>> := Blocks(cfg);
    BlockIndexInRange(cfg, row, col);
    BlockMembership(cfg, (row, col), BlockIndex(cfg, row, col));
    var blockIndex := 0;
    while blockIndex < |blocks| && (row, col) !in blocks[blockIndex]
      invariant 0 <= blockIndex <= BlockIndex(cfg, row, col)
      decreases |blocks| - blockIndex
    {
      blockIndex := blockIndex + 1;
    }
    BlockMembership(cfg, (row, col), blockIndex);
    BlocksInRange(cfg);
    block := seq(cfg.N(), t requires 0 <= t < cfg.N() => m[blocks[blockIndex][t].0][blocks[blockIndex][t].1]);
  }

  // ---------------------------------------------------------------------
  // Empty cells
  // ---------------------------------------------------------------------

  /** The coordinates of the empty (zero) cells. */
  function ZeroCells(cfg: Config, g: seq<seq<int>>): (z: set<Cell>)
    requires IsGrid(cfg, g)
    ensures forall p :: p in z <==> InRange(cfg, p) && g[p.0][p.1] == 0
  {
    set r, c | 0 <= r < cfg.N() && 0 <= c < cfg.N() && g[r][c] == 0 :: (r, c)
  }

  /** The number of empty cells. */
  function Zeros(cfg: Config, g: seq<seq<int>>): nat
    requires IsGrid(cfg, g)
  {
    |ZeroCells(cfg, g)|
  }

  /** Writing a non-zero value into an empty cell removes exactly that cell from the empty ones. */
  lemma FillOneZero(cfg: Config, g: seq<seq<int>>, row: int, col: int, v: int)
    requires IsGrid(cfg, g) && InRange(cfg, (row, col)) && g[row][col] == 0 && v != 0
    ensures IsGrid(cfg, SetCell(g, row, col, v))
    ensures ZeroCells(cfg, SetCell(g, row, col, v)) == ZeroCells(cfg, g) - {(row, col)}
    ensures Zeros(cfg, SetCell(g, row, col, v)) == Zeros(cfg, g) - 1
  {
    var g' := SetCell(g, row, col, v);
    assert ZeroCells(cfg, g') == ZeroCells(cfg, g) - {(row, col)};
  }

  /** `a` keeps every non-zero cell of `b`: a is `b` with some empty cells filled. */
  predicate Extends(cfg: Config, a: seq<seq<int>>, b: seq<seq<int>>) {
    && IsGrid(cfg, a) && IsGrid(cfg, b)
    && forall r, c :: 0 <= r < cfg.N() && 0 <= c < cfg.N() && b[r][c] != 0 ==> a[r][c] == b[r][c]
  }

  lemma ExtendsTransitive(cfg: Config, a: seq<seq<int>>, b: seq<seq<int>>, c: seq<seq<int>>)
    requires Extends(cfg, a, b) && Extends(cfg, b, c)
    ensures Extends(cfg, a, c)
  {
  }

  /** Filling an empty cell extends the grid, and a grid that agrees with the filled value extends the result. */
  lemma FillExtends(cfg: Config, s: seq<seq<int>>, g: seq<seq<int>>, row: int, col: int, v: int)
    requires IsGrid(cfg, g) && InRange(cfg, (row, col)) && g[row][col] == 0
    ensures IsGrid(cfg, SetCell(g, row, col, v)) && Extends(cfg, SetCell(g, row, col, v), g)
    ensures Extends(cfg, s, g) && s[row][col] == v ==> Extends(cfg, s, SetCell(g, row, col, v))
  {
  }

  // ---------------------------------------------------------------------
  // Block partition: ranges, coordinates and membership
  // ---------------------------------------------------------------------

  lemma BlockIndexInRange(cfg: Config, row: int, col: int)
    requires InRange(cfg, (row, col))
    ensures 0 <= BlockIndex(cfg, row, col) < cfg.N()
  {
    var k: int := cfg.k;
    QuotientBelowSide(k, row);
    QuotientBelowSide(k, col);
    MulBelow(row / k, col / k, k);
  }

  lemma BlockCellInRange(cfg: Config, b: int, t: int)
    requires 0 <= b < cfg.N() && 0 <= t < cfg.N()
    ensures InRange(cfg, Blocks(cfg)[b][t])
  {
    var k: int := cfg.k;
    QuotientBelowSide(k, b);
    QuotientBelowSide(k, t);
    MulBelow(b / k, t % k, k);
    MulBelow(b % k, t / k, k);
  }

  lemma BlocksInRange(cfg: Config)
    ensures forall b, t :: 0 <= b < cfg.N() && 0 <= t < cfg.N() ==> InRange(cfg, Blocks(cfg)[b][t])
  {
    forall b, t | 0 <= b < cfg.N() && 0 <= t < cfg.N()
      ensures InRange(cfg, Blocks(cfg)[b][t])
    {
      BlockCellInRange(cfg, b, t);
    }
  }

  /** Position, within its block's coordinate list, of the cell (row, col). */
  function OffsetInBlock(cfg: Config, row: int, col: int): int {
    (col % cfg.k) * cfg.k + row % cfg.k
  }

  /** The t-th coordinate of block b, and the block and offset of a cell, are inverse to each other. */
  lemma BlockCoordinates(cfg: Config, row: int, col: int)
    requires InRange(cfg, (row, col))
    ensures 0 <= OffsetInBlock(cfg, row, col) < cfg.N()
    ensures 0 <= BlockIndex(cfg, row, col) < cfg.N()
    ensures Blocks(cfg)[BlockIndex(cfg, row, col)][OffsetInBlock(cfg, row, col)] == (row, col)
  {
    var k: int := cfg.k;
    var b := BlockIndex(cfg, row, col);
    var t := OffsetInBlock(cfg, row, col);
    BlockDigits(k, row, col);
    assert Blocks(cfg)[b][t] == (t % k + (b / k) * k, t / k + (b % k) * k);
    assert row == (row / k) * k + row % k;
    assert col == (col / k) * k + col % k;
  }

  /** A coordinate lies in block b exactly when b is the block index of that coordinate. */
  lemma BlockMembership(cfg: Config, p: Cell, b: int)
    requires InRange(cfg, p) && 0 <= b < cfg.N()
    ensures p in Blocks(cfg)[b] <==> b == BlockIndex(cfg, p.0, p.1)
  {
    var k: int := cfg.k;
    if p in Blocks(cfg)[b] {
      var t :| 0 <= t < cfg.N() && Blocks(cfg)[b][t] == p;
      assert p == (t % k + (b / k) * k, t / k + (b % k) * k);
      CellDigits(k, b, t);
    } else if b == BlockIndex(cfg, p.0, p.1) {
      BlockCoordinates(cfg, p.0, p.1);
    }
  }

  /** The top-left corner of block b, which lies in block b. */
  lemma BlockCorner(cfg: Config, b: int) returns (row: int, col: int)
    requires 0 <= b < cfg.N()
    ensures row == (b / cfg.k) * cfg.k && col == (b % cfg.k) * cfg.k
    ensures InRange(cfg, (row, col)) && BlockIndex(cfg, row, col) == b
  {
    var k: int := cfg.k;
    row, col := (b / k) * k, (b % k) * k;
    QuotientBelowSide(k, b);
    MulBelow(b / k, 0, k);
    MulBelow(b % k, 0, k);
    DivModUnique(b / k, 0, k);
    DivModUnique(b % k, 0, k);
  }

  /** Coordinates of one block are pairwise distinct. */
  lemma BlockCellsDistinct(cfg: Config, b: int, t: int, u: int)
    requires 0 <= b < cfg.N() && 0 <= t < u < cfg.N()
    ensures Blocks(cfg)[b][t] != Blocks(cfg)[b][u]
  {
    var k: int := cfg.k;
    assert t == (t / k) * k + t % k;
    assert u == (u / k) * k + u % k;
  }

  /** Two cells share a block index exactly when they share a row band and a column band. */
  lemma BlockIndexSameBlock(cfg: Config, p: Cell, q: Cell)
    requires InRange(cfg, p) && InRange(cfg, q)
    ensures BlockIndex(cfg, p.0, p.1) == BlockIndex(cfg, q.0, q.1) <==> SameBlock(cfg, p, q)
  {
    var k: int := cfg.k;
    QuotientBelowSide(k, p.1);
    QuotientBelowSide(k, q.1);
    DivModUnique(p.0 / k, p.1 / k, k);
    DivModUnique(q.0 / k, q.1 / k, k);
  }

  /**
   * The partition property of the blocks: N blocks of N coordinates each,
   * no coordinate twice within a block, every cell of the grid in exactly
   * one block, its block index, which it shares with the cells of its row
   * band and column band.
   */
  lemma BlocksPartition(cfg: Config)
    ensures |Blocks(cfg)| == cfg.N()
    ensures forall b :: 0 <= b < cfg.N() ==> |Blocks(cfg)[b]| == cfg.N()
    ensures forall b, t :: 0 <= b < cfg.N() && 0 <= t < cfg.N() ==> InRange(cfg, Blocks(cfg)[b][t])
    ensures forall p :: InRange(cfg, p) ==> 0 <= BlockIndex(cfg, p.0, p.1) < cfg.N()
    ensures forall b, t, u :: 0 <= b < cfg.N() && 0 <= t < u < cfg.N() ==> Blocks(cfg)[b][t] != Blocks(cfg)[b][u]
    ensures forall p, b :: InRange(cfg, p) && 0 <= b < cfg.N() ==>
              (p in Blocks(cfg)[b] <==> b == BlockIndex(cfg, p.0, p.1))
    ensures forall p, q :: InRange(cfg, p) && InRange(cfg, q) ==>
              (BlockIndex(cfg, p.0, p.1) == BlockIndex(cfg, q.0, q.1) <==> SameBlock(cfg, p, q))
  {
    BlocksInRange(cfg);
    forall p | InRange(cfg, p) ensures 0 <= BlockIndex(cfg, p.0, p.1) < cfg.N() {
      BlockIndexInRange(cfg, p.0, p.1);
    }
    forall b, t, u | 0 <= b < cfg.N() && 0 <= t < u < cfg.N()
      ensures Blocks(cfg)[b][t] != Blocks(cfg)[b][u]
    {
      BlockCellsDistinct(cfg, b, t, u);
    }
    forall p, b | InRange(cfg, p) && 0 <= b < cfg.N()
      ensures p in Blocks(cfg)[b] <==> b == BlockIndex(cfg, p.0, p.1)
    {
      BlockMembership(cfg, p, b);
    }
    forall p, q | InRange(cfg, p) && InRange(cfg, q)
      ensures BlockIndex(cfg, p.0, p.1) == BlockIndex(cfg, q.0, q.1) <==> SameBlock(cfg, p, q)
    {
      BlockIndexSameBlock(cfg, p, q);
    }
  }

  /**
   * get_block reads exactly the k x k block whose top-left corner is
   * ((row / k) * k, (col / k) * k): its t-th value sits t % k rows below
   * and t / k columns to the right of that corner.
   */
  lemma BlockAtCorner(cfg: Config, g: seq<seq<int>>, row: int, col: int)
    requires IsGrid(cfg, g) && InRange(cfg, (row, col))
    ensures forall t :: 0 <= t < cfg.N() ==>
              var k := cfg.k;
              var r := (row / k) * k + t % k;
              var c := (col / k) * k + t / k;
              InRange(cfg, (r, c)) && BlockAt(cfg, g, row, col)[t] == g[r][c]
  {
    var k: int := cfg.k;
    var b := BlockIndex(cfg, row, col);
    BlockIndexInRange(cfg, row, col);
    QuotientBelowSide(k, col);
    DivModUnique(row / k, col / k, k);
    assert b / k == row / k && b % k == col / k;
    forall t | 0 <= t < cfg.N()
      ensures InRange(cfg, ((row / k) * k + t % k, (col / k) * k + t / k))
      ensures BlockAt(cfg, g, row, col)[t] == g[(row / k) * k + t % k][(col / k) * k + t / k]
    {
      BlockCellInRange(cfg, b, t);
      assert Blocks(cfg)[b][t] == (t % k + (b / k) * k, t / k + (b % k) * k);
    }
  }

  // ---------------------------------------------------------------------
  // The mutable grid
  // ---------------------------------------------------------------------

  /** A grid the solver updates in place: the input puzzle, or a search state popped from the stack. */
  class Grid {
    var cells: seq<seq<int>>

    constructor (cells: seq<seq<int>>)
      ensures this.cells == cells
    {
      this.cells := cells;
    }

    method Set(row: int, col: int, v: int)
      requires 0 <= row < |cells| && 0 <= col < |cells[row]|
      modifies this
      ensures cells == SetCell(old(cells), row, col, v)
    {
      cells := cells[row := cells[row][col := v]];
    }
  }
}
