/**
 * The candidate engine: the values still legal for an empty cell, and the
 * map from every empty cell to its candidate set.
 */
module CandidateEngine {
  import opened SudokuGrid
  import opened Validator

  /** The values of 1..N absent from column `col`, row `row` and the block of (row, col). */
  function Candidates(cfg: Config, g: seq<seq<int>>, row: int, col: int): set<int>
    requires IsGrid(cfg, g) && InRange(cfg, (row, col))
  {
    set v | v in Numbers(cfg) && v !in Column(cfg, g, col) && v !in Row(g, row) && v !in BlockAt(cfg, g, row, col)
  }

  /** Cells that share row `row`, column `col` or the block of (row, col) with that cell (the cell itself included). */
  predicate SharesUnit(cfg: Config, p: Cell, q: Cell) {
    p.0 == q.0 || p.1 == q.1 || SameBlock(cfg, p, q)
  }

  /**
   * The candidates of (row, col) are the values of 1..N that no cell of its
   * row, its column or its k x k block holds.
   */
  lemma CandidatesAvoidUnits(cfg: Config, g: seq<seq<int>>, row: int, col: int)
    requires IsGrid(cfg, g) && InRange(cfg, (row, col))
    ensures forall v :: v in Candidates(cfg, g, row, col) <==>
              1 <= v <= cfg.N() && forall q :: InRange(cfg, q) && SharesUnit(cfg, (row, col), q) ==> g[q.0][q.1] != v
  {
    var n := cfg.N();
    var p := (row, col);
    forall v
      ensures v in Candidates(cfg, g, row, col) <==>
                1 <= v <= n && forall q :: InRange(cfg, q) && SharesUnit(cfg, p, q) ==> g[q.0][q.1] != v
    {
      if v in Candidates(cfg, g, row, col) {
        forall q | InRange(cfg, q) && SharesUnit(cfg, p, q) ensures g[q.0][q.1] != v {
          UnitHolds(cfg, g, p, q);
        }
      }
      if 1 <= v <= n && forall q :: InRange(cfg, q) && SharesUnit(cfg, p, q) ==> g[q.0][q.1] != v {
        assert v !in Row(g, row) by {
          forall c | 0 <= c < n ensures Row(g, row)[c] != v {
            assert InRange(cfg, (row, c)) && SharesUnit(cfg, p, (row, c));
          }
        }
        assert v !in Column(cfg, g, col) by {
          forall r | 0 <= r < n ensures Column(cfg, g, col)[r] != v {
            assert InRange(cfg, (r, col)) && SharesUnit(cfg, p, (r, col));
          }
        }
        assert v !in BlockAt(cfg, g, row, col) by {
          var b := BlockIndex(cfg, row, col);
          BlockIndexInRange(cfg, row, col);
          BlocksInRange(cfg);
          forall t | 0 <= t < n ensures BlockAt(cfg, g, row, col)[t] != v {
            var q := Blocks(cfg)[b][t];
            BlockMembership(cfg, q, b);
            BlockIndexSameBlock(cfg, p, q);
            assert InRange(cfg, q) && SharesUnit(cfg, p, q);
          }
        }
      }
    }
  }

  /** The row, the column and the block of p hold the value of every cell q that shares a unit with p. */
  lemma UnitHolds(cfg: Config, g: seq<seq<int>>, p: Cell, q: Cell)
    requires IsGrid(cfg, g) && InRange(cfg, p) && InRange(cfg, q) && SharesUnit(cfg, p, q)
    ensures g[q.0][q.1] in Row(g, p.0) || g[q.0][q.1] in Column(cfg, g, p.1) || g[q.0][q.1] in BlockAt(cfg, g, p.0, p.1)
  {
    if p.0 == q.0 {
      assert Row(g, p.0)[q.1] == g[q.0][q.1];
    } else if p.1 == q.1 {
      assert Column(cfg, g, p.1)[q.0] == g[q.0][q.1];
    } else {
      BlockCoordinates(cfg, q.0, q.1);
      BlockIndexSameBlock(cfg, p, q);
      assert BlockAt(cfg, g, p.0, p.1)[OffsetInBlock(cfg, q.0, q.1)] == g[q.0][q.1];
    }
  }

  /** possible_per_spot */
  method PossiblePerSpot(cfg: Config, su: seq<seq<int>>, row: int, col: int) returns (possible: set<int>)
    requires IsGrid(cfg, su) && InRange(cfg, (row, col))
    ensures possible == Candidates(cfg, su, row, col)
  {
    var block := GetBlock(cfg, su, row, col);
    var column := Column(cfg, su, col);
    var cells := Row(su, row);
    possible := set v | v in Numbers(cfg) && v !in column && v !in cells && v !in block;
  }

  /** The candidate map: every empty cell, and only those, mapped to its candidate set. */
  function CandidateMap(cfg: Config, g: seq<seq<int>>): map<Cell, set<int>>
    requires IsGrid(cfg, g)
  {
    map p | p in ZeroCells(cfg, g) :: Candidates(cfg, g, p.0, p.1)
  }

  /** The part of the candidate map covering the cells scanned before (row, col). */
  ghost function ScannedCandidates(cfg: Config, g: seq<seq<int>>, row: int, col: int): map<Cell, set<int>>
    requires IsGrid(cfg, g)
  {
    map p | p in ZeroCells(cfg, g) && Before(p, (row, col)) :: Candidates(cfg, g, p.0, p.1)
  }

  /**
   * build_possible_positions: scan the grid row by row and enter every
   * empty cell with its candidates. The grid is a value here, so the scan
   * cannot change it.
   */
  method BuildPossiblePositions(cfg: Config, sudoku: seq<seq<int>>) returns (possibles: map<Cell, set<int>>)
    requires IsGrid(cfg, sudoku)
    ensures possibles == CandidateMap(cfg, sudoku)
    ensures possibles.Keys == ZeroCells(cfg, sudoku)
  {
    var n := cfg.N();
    possibles := map[];
    for row := 0 to n
      invariant possibles == ScannedCandidates(cfg, sudoku, row, 0)
    {
      for col := 0 to n
        invariant possibles == ScannedCandidates(cfg, sudoku, row, col)
      {
        ScannedStep(cfg, sudoku, row, col);
        if sudoku[row][col] == 0 {
          var possible := PossiblePerSpot(cfg, sudoku, row, col);
          possibles := possibles[(row, col) := possible];
        }
      }
      ScannedNextRow(cfg, sudoku, row);
    }
    ScannedAll(cfg, sudoku);
  }

  lemma ScannedStep(cfg: Config, g: seq<seq<int>>, row: int, col: int)
    requires IsGrid(cfg, g) && InRange(cfg, (row, col))
    ensures ScannedCandidates(cfg, g, row, col + 1) ==
              if g[row][col] == 0
              then ScannedCandidates(cfg, g, row, col)[(row, col) := Candidates(cfg, g, row, col)]
              else ScannedCandidates(cfg, g, row, col)
  {
    var a := ScannedCandidates(cfg, g, row, col + 1);
    var b := ScannedCandidates(cfg, g, row, col);
    if g[row][col] == 0 {
      assert a.Keys == b.Keys + {(row, col)};
    } else {
      assert a.Keys == b.Keys;
    }
  }

  lemma ScannedNextRow(cfg: Config, g: seq<seq<int>>, row: int)
    requires IsGrid(cfg, g) && 0 <= row < cfg.N()
    ensures ScannedCandidates(cfg, g, row, cfg.N()) == ScannedCandidates(cfg, g, row + 1, 0)
  {
    var a := ScannedCandidates(cfg, g, row, cfg.N());
    var b := ScannedCandidates(cfg, g, row + 1, 0);
    assert a.Keys == b.Keys;
  }

  lemma ScannedAll(cfg: Config, g: seq<seq<int>>)
    requires IsGrid(cfg, g)
    ensures ScannedCandidates(cfg, g, cfg.N(), 0) == CandidateMap(cfg, g)
  {
    var a := ScannedCandidates(cfg, g, cfg.N(), 0);
    var b := CandidateMap(cfg, g);
    assert a.Keys == b.Keys;
  }

  // ---------------------------------------------------------------------
  // Properties of candidates
  // ---------------------------------------------------------------------

  /** A candidate is one of 1..N (never 0), so a cell has at most N candidates. */
  lemma CandidatesWithinNumbers(cfg: Config, g: seq<seq<int>>, row: int, col: int)
    requires IsGrid(cfg, g) && InRange(cfg, (row, col))
    ensures forall v :: v in Candidates(cfg, g, row, col) ==> 1 <= v <= cfg.N()
    ensures |Candidates(cfg, g, row, col)| <= cfg.N()
  {
    SubsetCount(Candidates(cfg, g, row, col), Numbers(cfg));
  }

  lemma {:induction false} SubsetCount<T>(a: set<T>, b: set<T>)
    requires a <= b
    ensures |a| <= |b|
  {
    if exists x :: x in a {
      var x :| x in a;
      SubsetCount(a - {x}, b - {x});
    }
  }

  /** A set without members is empty. */
  lemma EmptyHasNoMember(s: set<int>)
    ensures (forall v :: v !in s) ==> |s| == 0
  {
    if forall v :: v !in s {
      assert s == {};
    }
  }

  /** s is a solution of g: a valid grid that keeps every given value of g. */
  predicate IsCompletion(cfg: Config, s: seq<seq<int>>, g: seq<seq<int>>) {
    ValidGrid(cfg, s) && Extends(cfg, s, g)
  }

  /** The grid has no solution at all. */
  ghost predicate Unsolvable(cfg: Config, g: seq<seq<int>>) {
    forall s :: !IsCompletion(cfg, s, g)
  }

  /**
   * Candidate pruning never loses a solution: the value a solution puts
   * into an empty cell is among that cell's candidates.
   */
  lemma CandidateSound(cfg: Config, s: seq<seq<int>>, g: seq<seq<int>>, row: int, col: int)
    requires IsCompletion(cfg, s, g) && InRange(cfg, (row, col)) && g[row][col] == 0
    ensures s[row][col] in Candidates(cfg, g, row, col)
  {
    var n := cfg.N();
    var v := s[row][col];
    ValidGridIsFull(cfg, s);
    assert UnitsHold(cfg, s, row, col);
    // not in the row
    forall c | 0 <= c < n
      ensures g[row][c] != v
    {
      if c != col {
        PermutationDistinct(cfg, Row(s, row), c, col);
      }
    }
    assert v !in Row(g, row);
    // not in the column
    forall r | 0 <= r < n
      ensures g[r][col] != v
    {
      if r != row {
        PermutationDistinct(cfg, Column(cfg, s, col), r, row);
      }
    }
    assert v !in Column(cfg, g, col);
    // not in the block
    var b := BlockIndex(cfg, row, col);
    var t0 := OffsetInBlock(cfg, row, col);
    BlockCoordinates(cfg, row, col);
    BlocksInRange(cfg);
    forall t | 0 <= t < n
      ensures BlockAt(cfg, g, row, col)[t] != v
    {
      var p := Blocks(cfg)[b][t];
      if t != t0 {
        PermutationDistinct(cfg, BlockAt(cfg, s, row, col), t, t0);
        assert BlockAt(cfg, s, row, col)[t] == s[p.0][p.1];
      }
    }
    assert v !in BlockAt(cfg, g, row, col);
  }

  /** An empty cell without candidates makes the grid unsolvable. */
  lemma EmptyCandidatesUnsolvable(cfg: Config, g: seq<seq<int>>, row: int, col: int)
    requires IsGrid(cfg, g) && InRange(cfg, (row, col)) && g[row][col] == 0
    requires Candidates(cfg, g, row, col) == {}
    ensures Unsolvable(cfg, g)
  {
    forall s | IsCompletion(cfg, s, g)
      ensures false
    {
      CandidateSound(cfg, s, g, row, col);
    }
  }
}
