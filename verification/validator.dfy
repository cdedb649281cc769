/**
 * The validator: a grid is valid when every row, every column and every
 * block holds each of the values 1..N exactly once.
 */
module Validator {
  import opened SudokuGrid

  /** The values 1..n. */
  function NumbersUpTo(n: nat): (r: set<int>)
    ensures forall v :: v in r <==> 1 <= v <= n
    ensures |r| == n
  {
    if n == 0 then {} else NumbersUpTo(n - 1) + {n}
  }

  /** The legal cell values 1..N. */
  function Numbers(cfg: Config): set<int> {
    NumbersUpTo(cfg.N())
  }

  /**
   * A unit whose sorted values equal the sorted values 1..N: it holds
   * each of 1..N exactly once.
   */
  predicate IsPermutationOfNumbers(cfg: Config, s: seq<int>) {
    multiset(s) == multiset(Numbers(cfg))
  }

  /** The test the validator makes for the pair (i, j): row i, column j and the block of (i, j). */
  predicate UnitsHold(cfg: Config, g: seq<seq<int>>, i: int, j: int)
    requires IsGrid(cfg, g) && InRange(cfg, (i, j))
  {
    && IsPermutationOfNumbers(cfg, Row(g, i))
    && IsPermutationOfNumbers(cfg, Column(cfg, g, j))
    && IsPermutationOfNumbers(cfg, BlockAt(cfg, g, i, j))
  }

  predicate ValidGrid(cfg: Config, g: seq<seq<int>>) {
    IsGrid(cfg, g) && forall i, j :: 0 <= i < cfg.N() && 0 <= j < cfg.N() ==> UnitsHold(cfg, g, i, j)
  }

  /** is_valid: the nested loops over (i, j), returning false at the first failing pair. */
  method IsValid(cfg: Config, g: seq<seq<int>>) returns (ok: bool)
    requires IsGrid(cfg, g)
    ensures ok <==> ValidGrid(cfg, g)
  {
    var n := cfg.N();
    for i := 0 to n
      invariant forall i', j' :: 0 <= i' < i && 0 <= j' < n ==> UnitsHold(cfg, g, i', j')
    {
      for j := 0 to n
        invariant forall i', j' :: 0 <= i' < i && 0 <= j' < n ==> UnitsHold(cfg, g, i', j')
        invariant forall j' :: 0 <= j' < j ==> UnitsHold(cfg, g, i, j')
      {
        var block := GetBlock(cfg, g, i, j);
        var holds := IsPermutationOfNumbers(cfg, Row(g, i))
                     && IsPermutationOfNumbers(cfg, Column(cfg, g, j))
                     && IsPermutationOfNumbers(cfg, block);
        assert holds == UnitsHold(cfg, g, i, j);
        if !holds {
          return false;
        }
      }
    }
    return true;
  }

  // ---------------------------------------------------------------------
  // Properties of permutations of 1..N
  // ---------------------------------------------------------------------

  /** A permutation of 1..N has N entries, all of them in 1..N: in particular no empty cell. */
  lemma PermutationMembers(cfg: Config, s: seq<int>)
    requires IsPermutationOfNumbers(cfg, s)
    ensures |s| == cfg.N()
    ensures forall i :: 0 <= i < |s| ==> 1 <= s[i] <= cfg.N()
  {
    assert |multiset(s)| == |s|;
    assert |multiset(Numbers(cfg))| == |Numbers(cfg)|;
    forall i | 0 <= i < |s|
      ensures 1 <= s[i] <= cfg.N()
    {
      assert s[i] in multiset(s);
    }
  }

  /** A value that occurs at two positions of a sequence occurs at least twice in its multiset. */
  lemma TwiceInMultiset(s: seq<int>, i: int, j: int)
    requires 0 <= i < j < |s|
    ensures s[i] == s[j] ==> multiset(s)[s[i]] >= 2
  {
    assert s == s[..j] + s[j..];
    assert s[i] in s[..j];
    assert s[j] in s[j..];
    assert multiset(s) == multiset(s[..j]) + multiset(s[j..]);
  }

  /** A permutation of 1..N holds no value twice. */
  lemma PermutationDistinct(cfg: Config, s: seq<int>, i: int, j: int)
    requires IsPermutationOfNumbers(cfg, s)
    requires 0 <= i < |s| && 0 <= j < |s| && i != j
    ensures s[i] != s[j]
  {
    if i < j { TwiceInMultiset(s, i, j); } else { TwiceInMultiset(s, j, i); }
  }

  /** A grid the validator accepts has no empty cell. */
  lemma ValidGridIsFull(cfg: Config, g: seq<seq<int>>)
    requires ValidGrid(cfg, g)
    ensures ZeroCells(cfg, g) == {}
    ensures forall r, c :: 0 <= r < cfg.N() && 0 <= c < cfg.N() ==> 1 <= g[r][c] <= cfg.N()
  {
    forall r, c | 0 <= r < cfg.N() && 0 <= c < cfg.N()
      ensures 1 <= g[r][c] <= cfg.N()
    {
      assert UnitsHold(cfg, g, r, 0);
      PermutationMembers(cfg, Row(g, r));
    }
  }

  /**
   * Checking every pair (i, j) is the same as checking every row, every
   * column and every one of the N blocks of the partition.
   */
  lemma ValidGridUnits(cfg: Config, g: seq<seq<int>>)
    requires IsGrid(cfg, g)
    ensures ValidGrid(cfg, g) <==>
              && (forall i :: 0 <= i < cfg.N() ==> IsPermutationOfNumbers(cfg, Row(g, i)))
              && (forall j :: 0 <= j < cfg.N() ==> IsPermutationOfNumbers(cfg, Column(cfg, g, j)))
              && (forall b :: 0 <= b < cfg.N() ==> IsPermutationOfNumbers(cfg, BlockValues(cfg, g, b)))
  {
    var n := cfg.N();
    var k: int := cfg.k;
    if ValidGrid(cfg, g) {
      forall i | 0 <= i < n ensures IsPermutationOfNumbers(cfg, Row(g, i)) {
        assert UnitsHold(cfg, g, i, 0);
      }
      forall j | 0 <= j < n ensures IsPermutationOfNumbers(cfg, Column(cfg, g, j)) {
        assert UnitsHold(cfg, g, 0, j);
      }
      forall b | 0 <= b < n ensures IsPermutationOfNumbers(cfg, BlockValues(cfg, g, b)) {
        var row, col := BlockCorner(cfg, b);
        assert UnitsHold(cfg, g, row, col);
      }
    }
    if (forall b :: 0 <= b < n ==> IsPermutationOfNumbers(cfg, BlockValues(cfg, g, b))) {
      forall i, j | 0 <= i < n && 0 <= j < n
        ensures IsPermutationOfNumbers(cfg, BlockAt(cfg, g, i, j))
      {
        BlockIndexInRange(cfg, i, j);
      }
    }
  }
}
