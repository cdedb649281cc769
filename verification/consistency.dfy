/**
 * Conflict-free grids: every filled cell holds one of 1..N and no row,
 * column or block holds a value twice. Writing a candidate keeps a grid
 * conflict-free, a grid with a solution is conflict-free, and a full
 * conflict-free grid is exactly a grid the validator accepts.
 */
module Consistency {
  import opened SudokuGrid
  import opened Validator
  import opened CandidateEngine

  /** Two different cells that share a row, a column or a block. */
  predicate Peers(cfg: Config, p: Cell, q: Cell) {
    p != q && SharesUnit(cfg, p, q)
  }

  /** Filled cells hold values of 1..N, and no two peers hold the same one. */
  ghost predicate NoConflicts(cfg: Config, g: seq<seq<int>>)
    requires IsGrid(cfg, g)
  {
    && (forall p :: InRange(cfg, p) && g[p.0][p.1] != 0 ==> 1 <= g[p.0][p.1] <= cfg.N())
    && (forall p, q :: InRange(cfg, p) && InRange(cfg, q) && Peers(cfg, p, q) && g[p.0][p.1] != 0 ==>
          g[p.0][p.1] != g[q.0][q.1])
  }

  /** The block values of (row, col) include the value of every cell of the same block. */
  lemma BlockHolds(cfg: Config, g: seq<seq<int>>, p: Cell, q: Cell)
    requires IsGrid(cfg, g) && InRange(cfg, p) && InRange(cfg, q) && SameBlock(cfg, p, q)
    ensures 0 <= OffsetInBlock(cfg, q.0, q.1) < cfg.N()
    ensures BlockAt(cfg, g, p.0, p.1)[OffsetInBlock(cfg, q.0, q.1)] == g[q.0][q.1]
  {
    BlockCoordinates(cfg, q.0, q.1);
    BlockIndexSameBlock(cfg, p, q);
  }

  /** A candidate of p is the value of none of p's peers. */
  lemma CandidateAvoidsPeers(cfg: Config, g: seq<seq<int>>, p: Cell, q: Cell, v: int)
    requires IsGrid(cfg, g) && InRange(cfg, p) && InRange(cfg, q) && Peers(cfg, p, q)
    requires v in Candidates(cfg, g, p.0, p.1)
    ensures g[q.0][q.1] != v
  {
    CandidatesAvoidUnits(cfg, g, p.0, p.1);
  }

  /** Writing a candidate into an empty cell of a conflict-free grid keeps it conflict-free. */
  lemma FillCandidateKeeps(cfg: Config, g: seq<seq<int>>, row: int, col: int, v: int)
    requires IsGrid(cfg, g) && NoConflicts(cfg, g) && InRange(cfg, (row, col)) && g[row][col] == 0
    requires v in Candidates(cfg, g, row, col)
    ensures IsGrid(cfg, SetCell(g, row, col, v)) && NoConflicts(cfg, SetCell(g, row, col, v))
  {
    var g' := SetCell(g, row, col, v);
    CandidatesWithinNumbers(cfg, g, row, col);
    forall p, q | InRange(cfg, p) && InRange(cfg, q) && Peers(cfg, p, q) && g'[p.0][p.1] != 0
      ensures g'[p.0][p.1] != g'[q.0][q.1]
    {
      if p == (row, col) {
        CandidateAvoidsPeers(cfg, g, p, q, v);
      } else if q == (row, col) {
        CandidateAvoidsPeers(cfg, g, q, p, v);
      }
    }
  }

  /** A grid the validator accepts is conflict-free. */
  lemma ValidNoConflicts(cfg: Config, s: seq<seq<int>>)
    requires ValidGrid(cfg, s)
    ensures NoConflicts(cfg, s)
  {
    ValidGridIsFull(cfg, s);
    forall p, q | InRange(cfg, p) && InRange(cfg, q) && Peers(cfg, p, q) && s[p.0][p.1] != 0
      ensures s[p.0][p.1] != s[q.0][q.1]
    {
      assert UnitsHold(cfg, s, p.0, p.1);
      if p.0 == q.0 {
        PermutationDistinct(cfg, Row(s, p.0), p.1, q.1);
      } else if p.1 == q.1 {
        PermutationDistinct(cfg, Column(cfg, s, p.1), p.0, q.0);
      } else {
        BlockHolds(cfg, s, p, p);
        BlockHolds(cfg, s, p, q);
        BlockCoordinates(cfg, p.0, p.1);
        BlockCoordinates(cfg, q.0, q.1);
        PermutationDistinct(cfg, BlockAt(cfg, s, p.0, p.1), OffsetInBlock(cfg, p.0, p.1), OffsetInBlock(cfg, q.0, q.1));
      }
    }
  }

  /** A grid with a solution is conflict-free: its givens agree with a conflict-free grid. */
  lemma SolvableNoConflicts(cfg: Config, s: seq<seq<int>>, g: seq<seq<int>>)
    requires IsCompletion(cfg, s, g)
    ensures NoConflicts(cfg, g)
  {
    ValidNoConflicts(cfg, s);
  }

  /** A sequence without repetitions whose elements are those of a set is as long as the set has members. */
  lemma {:induction false} DistinctCount(values: seq<int>, s: set<int>)
    requires forall v :: v in values <==> v in s
    requires forall i, j :: 0 <= i < j < |values| ==> values[i] != values[j]
    ensures |values| == |s|
    decreases |values|
  {
    if |values| == 0 {
      EmptyHasNoMember(s);
    } else {
      var last := values[|values| - 1];
      var init := values[..|values| - 1];
      assert values == init + [last];
      forall v ensures v in init <==> v in s - {last} {
        if v in init {
          var i :| 0 <= i < |init| && init[i] == v;
          assert values[i] == v;
        }
      }
      DistinctCount(init, s - {last});
    }
  }

  /** In a sequence without repetitions, every element occurs exactly once. */
  lemma {:induction false} DistinctOnce(u: seq<int>)
    requires forall i, j :: 0 <= i < j < |u| ==> u[i] != u[j]
    ensures forall v :: multiset(u)[v] == if v in u then 1 else 0
    decreases |u|
  {
    if |u| > 0 {
      var init := u[..|u| - 1];
      assert u == init + [u[|u| - 1]];
      DistinctOnce(init);
    }
  }

  /** N values of 1..N without a repetition are each of 1..N once. */
  lemma DistinctInRangePermutation(cfg: Config, u: seq<int>)
    requires |u| == cfg.N()
    requires forall i :: 0 <= i < |u| ==> 1 <= u[i] <= cfg.N()
    requires forall i, j :: 0 <= i < j < |u| ==> u[i] != u[j]
    ensures IsPermutationOfNumbers(cfg, u)
  {
    var vs := set v | v in u;
    DistinctCount(u, vs);
    SubsetSameSize(vs, Numbers(cfg));
    DistinctOnce(u);
    assert multiset(u) == multiset(Numbers(cfg));
  }

  /** A subset with as many members as the whole set is the whole set. */
  lemma SubsetSameSize(a: set<int>, b: set<int>)
    requires a <= b && |a| == |b|
    ensures a == b
  {
    if x :| x in b && x !in a {
      SubsetCount(a + {x}, b);
      assert false;
    }
    assert forall x :: x in b ==> x in a;
  }

  /**
   * The validator accepts a grid exactly when it has no empty cell and no
   * conflict: a full grid needs no further check than the one candidates make.
   */
  lemma FullNoConflictsValid(cfg: Config, g: seq<seq<int>>)
    requires IsGrid(cfg, g)
    ensures ValidGrid(cfg, g) <==> ZeroCells(cfg, g) == {} && NoConflicts(cfg, g)
  {
    if ValidGrid(cfg, g) {
      ValidGridIsFull(cfg, g);
      ValidNoConflicts(cfg, g);
    }
    if ZeroCells(cfg, g) == {} && NoConflicts(cfg, g) {
      forall i, j | 0 <= i < cfg.N() && 0 <= j < cfg.N()
        ensures UnitsHold(cfg, g, i, j)
      {
        FullUnitsHold(cfg, g, i, j);
      }
    }
  }

  /** In a full conflict-free grid, the row, the column and the block of (i, j) each hold 1..N once. */
  lemma FullUnitsHold(cfg: Config, g: seq<seq<int>>, i: int, j: int)
    requires IsGrid(cfg, g) && ZeroCells(cfg, g) == {} && NoConflicts(cfg, g) && InRange(cfg, (i, j))
    ensures UnitsHold(cfg, g, i, j)
  {
    var n := cfg.N();
    assert forall p :: InRange(cfg, p) ==> g[p.0][p.1] != 0 by {
      forall p | InRange(cfg, p) ensures g[p.0][p.1] != 0 {
        assert p !in ZeroCells(cfg, g);
      }
    }
    // the row
    forall c | 0 <= c < n ensures 1 <= Row(g, i)[c] <= n {
      assert InRange(cfg, (i, c));
    }
    forall c, d | 0 <= c < d < n ensures Row(g, i)[c] != Row(g, i)[d] {
      assert Peers(cfg, (i, c), (i, d)) && InRange(cfg, (i, c)) && InRange(cfg, (i, d));
    }
    DistinctInRangePermutation(cfg, Row(g, i));
    // the column
    var col := Column(cfg, g, j);
    forall r | 0 <= r < n ensures 1 <= col[r] <= n {
      assert InRange(cfg, (r, j));
    }
    forall r, d | 0 <= r < d < n ensures col[r] != col[d] {
      assert Peers(cfg, (r, j), (d, j)) && InRange(cfg, (r, j)) && InRange(cfg, (d, j));
    }
    DistinctInRangePermutation(cfg, col);
    // the block
    var b := BlockIndex(cfg, i, j);
    var block := BlockAt(cfg, g, i, j);
    BlockIndexInRange(cfg, i, j);
    BlocksInRange(cfg);
    forall t | 0 <= t < n ensures 1 <= block[t] <= n && block[t] == g[Blocks(cfg)[b][t].0][Blocks(cfg)[b][t].1] {
      assert InRange(cfg, Blocks(cfg)[b][t]);
    }
    forall t, u | 0 <= t < u < n ensures block[t] != block[u] {
      var p, q := Blocks(cfg)[b][t], Blocks(cfg)[b][u];
      BlockCellsDistinct(cfg, b, t, u);
      BlockMembership(cfg, p, b);
      BlockMembership(cfg, q, b);
      BlockIndexSameBlock(cfg, p, q);
      assert Peers(cfg, p, q) && InRange(cfg, p) && InRange(cfg, q);
    }
    DistinctInRangePermutation(cfg, block);
  }
}
