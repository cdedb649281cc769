/**
 * The propagation engine: repeatedly fill the first empty cell that has
 * exactly one candidate, until no such cell is left.
 */
module Propagation {
  import opened Wrappers
  import opened SudokuGrid
  import opened CandidateEngine
  import opened KeySort
  import opened Consistency

  // ---------------------------------------------------------------------
  // The iteration order of the candidate dictionary
  // ---------------------------------------------------------------------

  predicate RowMajorSorted(o: seq<Cell>) {
    forall i, j :: 0 <= i < j < |o| ==> Before(o[i], o[j])
  }

  /** The empty cells of row `row` from column `col` on, left to right. */
  function OpenInRow(cfg: Config, g: seq<seq<int>>, row: int, col: nat): (o: seq<Cell>)
    requires IsGrid(cfg, g) && 0 <= row < cfg.N() && col <= cfg.N()
    ensures forall p :: p in o <==> p.0 == row && col <= p.1 < cfg.N() && g[row][p.1] == 0
    ensures RowMajorSorted(o)
    decreases cfg.N() - col
  {
    if col == cfg.N() then []
    else (if g[row][col] == 0 then [(row, col)] else []) + OpenInRow(cfg, g, row, col + 1)
  }

  /** The empty cells of rows `row`.. in row-major order. */
  function OpenFrom(cfg: Config, g: seq<seq<int>>, row: nat): (o: seq<Cell>)
    requires IsGrid(cfg, g) && row <= cfg.N()
    ensures forall p :: p in o <==> InRange(cfg, p) && row <= p.0 && g[p.0][p.1] == 0
    ensures RowMajorSorted(o)
    decreases cfg.N() - row
  {
    if row == cfg.N() then []
    else
      var here, rest := OpenInRow(cfg, g, row, 0), OpenFrom(cfg, g, row + 1);
      assert forall i, j :: 0 <= i < |here| && 0 <= j < |rest| ==> here[i].0 < rest[j].0 by {
        forall i, j | 0 <= i < |here| && 0 <= j < |rest| ensures here[i].0 < rest[j].0 {
          assert here[i] in here && rest[j] in rest;
        }
      }
      here + rest
  }

  /**
   * The keys of the candidate dictionary in insertion order: the empty
   * cells in the row-major order in which build_possible_positions meets them.
   */
  function OpenCells(cfg: Config, g: seq<seq<int>>): (o: seq<Cell>)
    requires IsGrid(cfg, g)
    ensures forall p :: p in o <==> p in ZeroCells(cfg, g)
    ensures RowMajorSorted(o) && Distinct(o)
  {
    OpenFrom(cfg, g, 0)
  }

  // ---------------------------------------------------------------------
  // Sorting the keys by candidate count, largest first, stably
  // ---------------------------------------------------------------------

  /** sorted(keys, key=len(m[key]), reverse=True) for a grid's candidate map. */
  function SizeDescending(cfg: Config, o: seq<Cell>, m: map<Cell, set<int>>): seq<Cell> {
    SizeDescendingFrom(o, m, cfg.N())
  }

  // ---------------------------------------------------------------------
  // The propagation function
  // ---------------------------------------------------------------------

  /** An empty cell with exactly one candidate. */
  predicate Forced(cfg: Config, g: seq<seq<int>>, q: Cell)
    requires IsGrid(cfg, g)
  {
    q in ZeroCells(cfg, g) && |Candidates(cfg, g, q.0, q.1)| == 1
  }

  /** The empty cell fill_guaranteed fills next, if any: the first one with exactly one candidate. */
  function FirstForced(cfg: Config, g: seq<seq<int>>): (f: Option<Cell>)
    requires IsGrid(cfg, g)
    ensures f.Some? ==> Forced(cfg, g, f.value)
  {
    var b := Bucket(OpenCells(cfg, g), CandidateMap(cfg, g), 1);
    if |b| == 0 then None
    else
      assert b[0] in b;
      BucketMember(OpenCells(cfg, g), CandidateMap(cfg, g), 1, b[0]);
      Some(b[0])
  }

  /** The first forced cell in row-major order, scanning from (row, col) on. */
  function ScanFrom(cfg: Config, g: seq<seq<int>>, row: nat, col: nat): (f: Option<Cell>)
    requires IsGrid(cfg, g) && col <= cfg.N()
    ensures f.Some? ==> Forced(cfg, g, f.value)
    decreases cfg.N() - row, cfg.N() - col
  {
    if row >= cfg.N() then None
    else if col == cfg.N() then ScanFrom(cfg, g, row + 1, 0)
    else if g[row][col] == 0 && |Candidates(cfg, g, row, col)| == 1 then Some((row, col))
    else ScanFrom(cfg, g, row, col + 1)
  }

  /** The first forced cell of the whole grid in row-major order. */
  function FirstSingleton(cfg: Config, g: seq<seq<int>>): (f: Option<Cell>)
    requires IsGrid(cfg, g)
    ensures f.Some? ==> Forced(cfg, g, f.value)
  {
    ScanFrom(cfg, g, 0, 0)
  }

  /**
   * The scan from (row, col) finds a forced cell at or after (row, col)
   * with no forced cell between them, and finds none exactly when every
   * forced cell lies before (row, col).
   */
  lemma {:induction false} ScanFromFirst(cfg: Config, g: seq<seq<int>>, row: nat, col: nat)
    requires IsGrid(cfg, g) && col <= cfg.N()
    ensures var f := ScanFrom(cfg, g, row, col);
      f.Some? ==> !Before(f.value, (row, col)) &&
                  forall q :: Forced(cfg, g, q) && !Before(q, (row, col)) ==> !Before(q, f.value)
    ensures ScanFrom(cfg, g, row, col).None? <==> forall q :: Forced(cfg, g, q) ==> Before(q, (row, col))
    decreases cfg.N() - row, cfg.N() - col
  {
    if row >= cfg.N() {
    } else if col == cfg.N() {
      ScanFromFirst(cfg, g, row + 1, 0);
    } else if g[row][col] == 0 && |Candidates(cfg, g, row, col)| == 1 {
      assert Forced(cfg, g, (row, col));
    } else {
      assert !Forced(cfg, g, (row, col));
      ScanFromFirst(cfg, g, row, col + 1);
    }
  }

  /**
   * fill_guaranteed's walk, largest candidate set first, meets the same
   * forced cell as a plain row-major scan: the first one in row-major order.
   */
  lemma FirstForcedIsFirstSingleton(cfg: Config, g: seq<seq<int>>)
    requires IsGrid(cfg, g)
    ensures FirstForced(cfg, g) == FirstSingleton(cfg, g)
  {
    FirstForcedIsFirst(cfg, g);
    ScanFromFirst(cfg, g, 0, 0);
    var a, b := FirstForced(cfg, g), FirstSingleton(cfg, g);
    if a.Some? {
      assert Forced(cfg, g, a.value) && !Before(a.value, (0, 0));
    }
    if b.Some? {
      assert Forced(cfg, g, b.value);
    }
  }

  /** The only member of a one-element set. */
  ghost function OnlyMember(s: set<int>): (v: int)
    requires |s| == 1
    ensures s == {v}
  {
    EmptyHasNoMember(s);
    var v :| v in s;
    assert |s - {v}| == 0;
    assert s - {v} == {};
    v
  }

  /**
   * The grid fill_guaranteed leaves behind: while some empty cell has
   * exactly one candidate, write it into the first such cell.
   */
  ghost function Propagate(cfg: Config, g: seq<seq<int>>): (r: seq<seq<int>>)
    requires IsGrid(cfg, g)
    ensures Extends(cfg, r, g)
    ensures Zeros(cfg, r) <= Zeros(cfg, g)
    decreases Zeros(cfg, g)
  {
    match FirstSingleton(cfg, g)
    case None => g
    case Some(p) =>
      var g' := SetCell(g, p.0, p.1, OnlyMember(Candidates(cfg, g, p.0, p.1)));
      FillForced(cfg, g, p);
      var r := Propagate(cfg, g');
      ExtendsTransitive(cfg, r, g', g);
      r
  }

  /** Propagation stops only at a fixpoint: no empty cell of the result has a single candidate. */
  lemma {:induction false} PropagateFixpoint(cfg: Config, g: seq<seq<int>>)
    requires IsGrid(cfg, g)
    ensures forall q :: q in ZeroCells(cfg, Propagate(cfg, g)) ==>
              |Candidates(cfg, Propagate(cfg, g), q.0, q.1)| != 1
    decreases Zeros(cfg, g)
  {
    match FirstSingleton(cfg, g)
    case None =>
      ScanFromFirst(cfg, g, 0, 0);
      forall q | q in ZeroCells(cfg, g) ensures |Candidates(cfg, g, q.0, q.1)| != 1 {
        if |Candidates(cfg, g, q.0, q.1)| == 1 {
          assert Forced(cfg, g, q);
        }
      }
    case Some(p) =>
      var g' := SetCell(g, p.0, p.1, OnlyMember(Candidates(cfg, g, p.0, p.1)));
      FillForced(cfg, g, p);
      PropagateFixpoint(cfg, g');
  }

  /** Propagation writes only candidates, so it keeps a grid conflict-free. */
  lemma {:induction false} PropagateNoConflicts(cfg: Config, g: seq<seq<int>>)
    requires IsGrid(cfg, g) && NoConflicts(cfg, g)
    ensures NoConflicts(cfg, Propagate(cfg, g))
    decreases Zeros(cfg, g)
  {
    match FirstSingleton(cfg, g)
    case None =>
    case Some(p) =>
      var s := Candidates(cfg, g, p.0, p.1);
      var g' := SetCell(g, p.0, p.1, OnlyMember(s));
      FillForced(cfg, g, p);
      FillCandidateKeeps(cfg, g, p.0, p.1, OnlyMember(s));
      PropagateNoConflicts(cfg, g');
  }

  /** Filling the forced cell with its only candidate extends the grid by one cell. */
  lemma FillForced(cfg: Config, g: seq<seq<int>>, p: Cell)
    requires IsGrid(cfg, g) && FirstSingleton(cfg, g) == Some(p)
    ensures var g' := SetCell(g, p.0, p.1, OnlyMember(Candidates(cfg, g, p.0, p.1)));
      && IsGrid(cfg, g')
      && Zeros(cfg, g') == Zeros(cfg, g) - 1
      && Extends(cfg, g', g)
  {
    var v := OnlyMember(Candidates(cfg, g, p.0, p.1));
    CandidatesWithinNumbers(cfg, g, p.0, p.1);
    FillOneZero(cfg, g, p.0, p.1, v);
    FillExtends(cfg, g, g, p.0, p.1, v);
  }

  /** The dictionary fill_guaranteed returns: empty cells with their candidates, minus those without any. */
  function LiveCandidates(cfg: Config, g: seq<seq<int>>): (m: map<Cell, set<int>>)
    requires IsGrid(cfg, g)
  {
    map p | p in ZeroCells(cfg, g) && Candidates(cfg, g, p.0, p.1) != {} :: Candidates(cfg, g, p.0, p.1)
  }

  // ---------------------------------------------------------------------
  // fill_guaranteed
  // ---------------------------------------------------------------------

  /**
   * The facts about one pass of fill_guaranteed's walk: the sorted keys are
   * exactly the keys of the map, each once, and the first key with one
   * candidate that the walk meets is the cell FirstForced names.
   */
  lemma WalkOrder(cfg: Config, g: seq<seq<int>>)
    requires IsGrid(cfg, g)
    ensures var d := SizeDescending(cfg, OpenCells(cfg, g), CandidateMap(cfg, g));
      && Distinct(d)
      && forall x :: x in d <==> x in CandidateMap(cfg, g)
  {
    var o, m := OpenCells(cfg, g), CandidateMap(cfg, g);
    var d := SizeDescending(cfg, o, m);
    SizeDescendingDistinct(o, m, cfg.N());
    forall x ensures x in d <==> x in m {
      DescMember(o, m, cfg.N(), x);
      if x in m {
        CandidatesWithinNumbers(cfg, g, x.0, x.1);
      }
    }
  }

  /** The first key with a single candidate that the walk meets is the cell FirstForced names. */
  lemma WalkForced(cfg: Config, g: seq<seq<int>>, i: int)
    requires IsGrid(cfg, g)
    requires 0 <= i < |SizeDescending(cfg, OpenCells(cfg, g), CandidateMap(cfg, g))|
    requires HasSize(CandidateMap(cfg, g), SizeDescending(cfg, OpenCells(cfg, g), CandidateMap(cfg, g))[i], 1)
    requires forall j :: 0 <= j < i ==>
               !HasSize(CandidateMap(cfg, g), SizeDescending(cfg, OpenCells(cfg, g), CandidateMap(cfg, g))[j], 1)
    ensures FirstForced(cfg, g) == Some(SizeDescending(cfg, OpenCells(cfg, g), CandidateMap(cfg, g))[i])
  {
    FirstOfSize(OpenCells(cfg, g), CandidateMap(cfg, g), cfg.N(), 1, i);
  }

  /** A walk that meets no key with a single candidate leaves no forced cell. */
  lemma WalkMissesForced(cfg: Config, g: seq<seq<int>>, order: seq<Cell>)
    requires IsGrid(cfg, g)
    requires forall x :: x in order <==> x in CandidateMap(cfg, g)
    requires forall j :: 0 <= j < |order| ==> !HasSize(CandidateMap(cfg, g), order[j], 1)
    ensures FirstForced(cfg, g) == None
  {
    forall q | q in ZeroCells(cfg, g) ensures |Candidates(cfg, g, q.0, q.1)| != 1 {
      assert q in CandidateMap(cfg, g);
      var j :| 0 <= j < |order| && order[j] == q;
    }
    FirstForcedIsFirst(cfg, g);
  }

  /** The map left after the walk drops the visited keys that have no candidate. */
  function Dropped(m: map<Cell, set<int>>, visited: seq<Cell>): map<Cell, set<int>> {
    map x | x in m && !(x in visited && m[x] == {}) :: m[x]
  }

  /** Before the walk nothing is dropped. */
  lemma DroppedNone(m: map<Cell, set<int>>, order: seq<Cell>)
    ensures Dropped(m, order[..0]) == m
  {
    assert Dropped(m, order[..0]).Keys == m.Keys;
  }

  /** The key the walk reaches next is still in the map with its original candidates. */
  lemma DroppedLookup(m: map<Cell, set<int>>, order: seq<Cell>, i: int)
    requires 0 <= i < |order| && order[i] in m && Distinct(order)
    ensures order[i] in Dropped(m, order[..i]) && Dropped(m, order[..i])[order[i]] == m[order[i]]
  {
    forall j | 0 <= j < i ensures order[..i][j] != order[i] {
      assert order[..i][j] == order[j];
    }
  }

  /** Visiting one more key drops it exactly when its candidate set is empty. */
  lemma DroppedStep(m: map<Cell, set<int>>, order: seq<Cell>, i: int)
    requires 0 <= i < |order| && order[i] in m
    ensures Dropped(m, order[..i + 1]) ==
              if m[order[i]] == {} then Dropped(m, order[..i]) - {order[i]} else Dropped(m, order[..i])
  {
    assert order[..i + 1] == order[..i] + [order[i]];
    var a, b := Dropped(m, order[..i + 1]), Dropped(m, order[..i]);
    if m[order[i]] == {} {
      assert a.Keys == b.Keys - {order[i]};
    } else {
      assert a.Keys == b.Keys;
    }
  }

  /** A walk over every key drops exactly the keys without candidates: the live candidate map is left. */
  lemma WalkDoneMap(cfg: Config, g: seq<seq<int>>, order: seq<Cell>)
    requires IsGrid(cfg, g)
    requires forall x :: x in order <==> x in CandidateMap(cfg, g)
    ensures Dropped(CandidateMap(cfg, g), order) == LiveCandidates(cfg, g)
  {
    var a, b := Dropped(CandidateMap(cfg, g), order), LiveCandidates(cfg, g);
    assert a.Keys == b.Keys;
  }

  /** The key at which the walk over `o` stops: the first one with exactly one candidate. */
  function FirstSingleKey(m: map<Cell, set<int>>, o: seq<Cell>): (f: Option<Cell>)
    ensures f.Some? ==> f.value in o && HasSize(m, f.value, 1)
    decreases |o|
  {
    if |o| == 0 then None
    else if HasSize(m, o[0], 1) then Some(o[0])
    else FirstSingleKey(m, o[1..])
  }

  /**
   * Where the walk stops: every key before the one found has a candidate
   * count other than one, and when none is found no key has exactly one.
   */
  lemma {:induction false} FirstSingleKeyIndex(m: map<Cell, set<int>>, o: seq<Cell>)
    ensures FirstSingleKey(m, o).None? ==> forall j :: 0 <= j < |o| ==> !HasSize(m, o[j], 1)
    ensures FirstSingleKey(m, o).Some? ==>
              exists i :: 0 <= i < |o| && o[i] == FirstSingleKey(m, o).value &&
                forall j :: 0 <= j < i ==> !HasSize(m, o[j], 1)
    decreases |o|
  {
    if |o| > 0 {
      if HasSize(m, o[0], 1) {
        assert o[0] == FirstSingleKey(m, o).value;
      } else {
        var r := o[1..];
        FirstSingleKeyIndex(m, r);
        if FirstSingleKey(m, r).Some? {
          var i :| 0 <= i < |r| && r[i] == FirstSingleKey(m, r).value && forall j :: 0 <= j < i ==> !HasSize(m, r[j], 1);
          forall j | 0 <= j < i + 1 ensures !HasSize(m, o[j], 1) {
            if j > 0 {
              assert o[j] == r[j - 1];
            }
          }
          assert o[i + 1] == FirstSingleKey(m, o).value;
        } else {
          forall j | 0 <= j < |o| ensures !HasSize(m, o[j], 1) {
            if j > 0 {
              assert o[j] == r[j - 1];
            }
          }
        }
      }
    }
  }

  /** Walking past a key that does not have exactly one candidate does not change where the walk stops. */
  lemma FirstSingleKeyPast(m: map<Cell, set<int>>, o: seq<Cell>, i: int)
    requires 0 <= i < |o| && !HasSize(m, o[i], 1)
    ensures FirstSingleKey(m, o[i..]) == FirstSingleKey(m, o[i + 1..])
  {
    assert o[i..][1..] == o[i + 1..];
  }

  /**
   * The walk of one pass of fill_guaranteed over the keys in the order
   * given: drop the keys without candidates, and stop at the first key
   * with a single candidate, taking that candidate out of its set.
   */
  method WalkKeys(built: map<Cell, set<int>>, order: seq<Cell>)
      returns (found: Option<Cell>, val: int, possiblePositions: map<Cell, set<int>>)
    requires Distinct(order) && forall x :: x in order ==> x in built
    ensures found == FirstSingleKey(built, order)
    ensures found.Some? ==> val in built[found.value]
    ensures found.None? ==> possiblePositions == Dropped(built, order)
  {
    possiblePositions := built;
    DroppedNone(built, order);
    var i := 0;
    while i < |order|
      invariant 0 <= i <= |order|
      invariant possiblePositions == Dropped(built, order[..i])
      invariant FirstSingleKey(built, order[i..]) == FirstSingleKey(built, order)
    {
      var key := order[i];
      DroppedLookup(built, order, i);
      if |possiblePositions[key]| == 0 {
        DroppedStep(built, order, i);
        FirstSingleKeyPast(built, order, i);
        possiblePositions := possiblePositions - {key};
      } else if |possiblePositions[key]| == 1 {
        EmptyHasNoMember(possiblePositions[key]);
        val :| val in possiblePositions[key];
        possiblePositions := possiblePositions[key := possiblePositions[key] - {val}];
        assert order[i..][0] == key;
        return Some(key), val, possiblePositions;
      } else {
        DroppedStep(built, order, i);
        FirstSingleKeyPast(built, order, i);
      }
      i := i + 1;
    }
    assert order[..i] == order;
    return None, 0, possiblePositions;
  }

  /**
   * fill_guaranteed's walk and the row-major scan agree: the first key with
   * one candidate in the size-descending order of the candidate map is the
   * first empty cell, in row-major order, with one candidate.
   */
  lemma WalkFindsFirstSingleton(cfg: Config, g: seq<seq<int>>)
    requires IsGrid(cfg, g)
    ensures FirstSingleKey(CandidateMap(cfg, g), SizeDescending(cfg, OpenCells(cfg, g), CandidateMap(cfg, g))) ==
            FirstSingleton(cfg, g)
  {
    var m := CandidateMap(cfg, g);
    var d := SizeDescending(cfg, OpenCells(cfg, g), m);
    WalkOrder(cfg, g);
    FirstSingleKeyIndex(m, d);
    FirstForcedIsFirstSingleton(cfg, g);
    if FirstSingleKey(m, d).Some? {
      var i :| 0 <= i < |d| && d[i] == FirstSingleKey(m, d).value && forall j :: 0 <= j < i ==> !HasSize(m, d[j], 1);
      WalkForced(cfg, g, i);
    } else {
      WalkMissesForced(cfg, g, d);
    }
  }

  /** One forced value written: the grid moves one step along Propagate and loses one empty cell. */
  lemma ForcedStep(cfg: Config, g: seq<seq<int>>, p: Cell, v: int)
    requires IsGrid(cfg, g) && FirstSingleton(cfg, g) == Some(p)
    requires v in Candidates(cfg, g, p.0, p.1)
    ensures IsGrid(cfg, SetCell(g, p.0, p.1, v))
    ensures Zeros(cfg, SetCell(g, p.0, p.1, v)) == Zeros(cfg, g) - 1
    ensures Propagate(cfg, SetCell(g, p.0, p.1, v)) == Propagate(cfg, g)
    ensures v == OnlyMember(Candidates(cfg, g, p.0, p.1))
  {
    var s := Candidates(cfg, g, p.0, p.1);
    assert s == {OnlyMember(s)};
    CandidatesWithinNumbers(cfg, g, p.0, p.1);
    FillOneZero(cfg, g, p.0, p.1, v);
  }

  /**
   * One pass of fill_guaranteed's outer loop: rebuild the candidate map,
   * walk its keys largest candidate set first, and write the value the
   * walk found, if any.
   */
  method FillPass(cfg: Config, sudoku: Grid) returns (filled: bool, openSpots: nat, possiblePositions: map<Cell, set<int>>)
    requires IsGrid(cfg, sudoku.cells)
    modifies sudoku
    ensures IsGrid(cfg, sudoku.cells)
    ensures Propagate(cfg, sudoku.cells) == Propagate(cfg, old(sudoku.cells))
    ensures filled ==> Zeros(cfg, sudoku.cells) < Zeros(cfg, old(sudoku.cells))
    ensures filled ==>
              && FirstSingleton(cfg, old(sudoku.cells)).Some?
              && var p := FirstSingleton(cfg, old(sudoku.cells)).value;
                 sudoku.cells == SetCell(old(sudoku.cells), p.0, p.1, OnlyMember(Candidates(cfg, old(sudoku.cells), p.0, p.1)))
    ensures !filled ==> sudoku.cells == old(sudoku.cells) == Propagate(cfg, old(sudoku.cells))
    ensures !filled ==> openSpots == Zeros(cfg, sudoku.cells)
    ensures !filled ==> possiblePositions == LiveCandidates(cfg, sudoku.cells)
  {
    ghost var cells := sudoku.cells;
    possiblePositions := BuildPossiblePositions(cfg, sudoku.cells);
    openSpots := |possiblePositions|;
    assert |possiblePositions| == |possiblePositions.Keys|;
    var order := SizeDescending(cfg, OpenCells(cfg, sudoku.cells), possiblePositions);
    WalkOrder(cfg, cells);
    WalkFindsFirstSingleton(cfg, cells);
    var found, val;
    found, val, possiblePositions := WalkKeys(possiblePositions, order);
    match found
    case Some(key) =>
      filled := true;
      ForcedStep(cfg, cells, key, val);
      sudoku.Set(key.0, key.1, val);
    case None =>
      filled := false;
      WalkDoneMap(cfg, cells, order);
  }

  /**
   * fill_guaranteed: repeat passes until a pass writes nothing; the grid is
   * then Propagate of the input, and the results are its number of empty
   * cells and its candidate map without the cells that have no candidate.
   */
  method FillGuaranteed(cfg: Config, sudoku: Grid) returns (openSpots: nat, possiblePositions: map<Cell, set<int>>)
    requires IsGrid(cfg, sudoku.cells)
    modifies sudoku
    ensures sudoku.cells == Propagate(cfg, old(sudoku.cells))
    ensures openSpots == Zeros(cfg, sudoku.cells)
    ensures possiblePositions == LiveCandidates(cfg, sudoku.cells)
    ensures forall p :: p in possiblePositions ==>
              InRange(cfg, p) && sudoku.cells[p.0][p.1] == 0 && |possiblePositions[p]| >= 2
  {
    ghost var start := sudoku.cells;
    var filling := true;
    openSpots, possiblePositions := 0, map[];
    while filling
      invariant IsGrid(cfg, sudoku.cells)
      invariant Propagate(cfg, sudoku.cells) == Propagate(cfg, start)
      invariant !filling ==> sudoku.cells == Propagate(cfg, start)
      invariant !filling ==> openSpots == Zeros(cfg, sudoku.cells)
      invariant !filling ==> possiblePositions == LiveCandidates(cfg, sudoku.cells)
      decreases Zeros(cfg, sudoku.cells) + (if filling then 1 else 0)
    {
      filling, openSpots, possiblePositions := FillPass(cfg, sudoku);
    }
    PropagatedLiveCandidates(cfg, start);
  }

  // ---------------------------------------------------------------------
  // Properties of propagation
  // ---------------------------------------------------------------------

  /**
   * The first forced cell is the first cell, in row-major order, that is
   * empty and has exactly one candidate; there is none exactly when no
   * empty cell has a single candidate.
   */
  lemma FirstForcedIsFirst(cfg: Config, g: seq<seq<int>>)
    requires IsGrid(cfg, g)
    ensures FirstForced(cfg, g).Some? ==>
              forall q :: Forced(cfg, g, q) ==> !Before(q, FirstForced(cfg, g).value)
    ensures FirstForced(cfg, g).None? <==> forall q :: !Forced(cfg, g, q)
  {
    forall q | Forced(cfg, g, q)
      ensures |Bucket(OpenCells(cfg, g), CandidateMap(cfg, g), 1)| > 0
      ensures !Before(q, Bucket(OpenCells(cfg, g), CandidateMap(cfg, g), 1)[0])
    {
      ForcedNotBeforeHead(cfg, g, q);
    }
  }

  /** No single-candidate cell comes before the head of the single-candidate bucket. */
  lemma ForcedNotBeforeHead(cfg: Config, g: seq<seq<int>>, q: Cell)
    requires IsGrid(cfg, g) && q in ZeroCells(cfg, g) && |Candidates(cfg, g, q.0, q.1)| == 1
    ensures |Bucket(OpenCells(cfg, g), CandidateMap(cfg, g), 1)| > 0
    ensures !Before(q, Bucket(OpenCells(cfg, g), CandidateMap(cfg, g), 1)[0])
  {
    SortedBucketHead(OpenCells(cfg, g), CandidateMap(cfg, g), q);
  }

  /** In a row-major key order, no key of a bucket comes before the bucket's head. */
  lemma SortedBucketHead(o: seq<Cell>, m: map<Cell, set<int>>, q: Cell)
    requires RowMajorSorted(o) && q in o && HasSize(m, q, 1)
    ensures |Bucket(o, m, 1)| > 0 && !Before(q, Bucket(o, m, 1)[0])
  {
    var b := Bucket(o, m, 1);
    var iq :| 0 <= iq < |o| && o[iq] == q;
    BucketHead(o, m, 1, iq);
    var j :| 0 <= j <= iq && o[j] == b[0];
    if j < iq {
      assert Before(b[0], q);
    }
  }

  /** Writing a cell's only candidate keeps exactly the solutions the grid had. */
  lemma ForcedSameSolutions(cfg: Config, s: seq<seq<int>>, g: seq<seq<int>>, p: Cell, v: int)
    requires IsGrid(cfg, g) && InRange(cfg, p) && g[p.0][p.1] == 0
    requires Candidates(cfg, g, p.0, p.1) == {v}
    ensures IsCompletion(cfg, s, g) <==> IsCompletion(cfg, s, SetCell(g, p.0, p.1, v))
  {
    FillExtends(cfg, s, g, p.0, p.1, v);
    if IsCompletion(cfg, s, g) {
      CandidateSound(cfg, s, g, p.0, p.1);
    }
    if IsCompletion(cfg, s, SetCell(g, p.0, p.1, v)) {
      ExtendsTransitive(cfg, s, SetCell(g, p.0, p.1, v), g);
    }
  }

  /** Propagation loses no solution and adds none: g and Propagate(g) have the same solutions. */
  lemma {:induction false} PropagateSameSolutions(cfg: Config, s: seq<seq<int>>, g: seq<seq<int>>)
    requires IsGrid(cfg, g)
    ensures IsCompletion(cfg, s, g) <==> IsCompletion(cfg, s, Propagate(cfg, g))
    decreases Zeros(cfg, g)
  {
    match FirstSingleton(cfg, g)
    case None =>
    case Some(p) =>
      var v := OnlyMember(Candidates(cfg, g, p.0, p.1));
      ForcedStep(cfg, g, p, v);
      ForcedSameSolutions(cfg, s, g, p, v);
      PropagateSameSolutions(cfg, s, SetCell(g, p.0, p.1, v));
  }

  /** At the fixpoint every key of the returned map is an empty cell with at least two candidates. */
  lemma LiveCandidatesAtFixpoint(cfg: Config, r: seq<seq<int>>)
    requires IsGrid(cfg, r) && FirstForced(cfg, r) == None
    ensures forall p :: p in LiveCandidates(cfg, r) ==>
              InRange(cfg, p) && r[p.0][p.1] == 0 && |LiveCandidates(cfg, r)[p]| >= 2
  {
    FirstForcedIsFirst(cfg, r);
    forall p | p in LiveCandidates(cfg, r)
      ensures InRange(cfg, p) && r[p.0][p.1] == 0 && |LiveCandidates(cfg, r)[p]| >= 2
    {
      assert !Forced(cfg, r, p);
    }
  }

  /**
   * After propagation, every key of the returned map is an empty cell with
   * at least two candidates.
   */
  lemma PropagatedLiveCandidates(cfg: Config, g: seq<seq<int>>)
    requires IsGrid(cfg, g)
    ensures forall p :: p in LiveCandidates(cfg, Propagate(cfg, g)) ==>
              InRange(cfg, p) && Propagate(cfg, g)[p.0][p.1] == 0 &&
              |LiveCandidates(cfg, Propagate(cfg, g))[p]| >= 2
  {
    var r := Propagate(cfg, g);
    PropagateFixpoint(cfg, g);
    FirstForcedIsFirst(cfg, r);
    LiveCandidatesAtFixpoint(cfg, r);
  }

  /**
   * The returned map misses an empty cell exactly when that cell has no
   * candidate, and then the grid has no solution; otherwise it is the full
   * candidate map.
   */
  lemma LiveCandidatesCount(cfg: Config, r: seq<seq<int>>)
    requires IsGrid(cfg, r)
    ensures |LiveCandidates(cfg, r)| <= Zeros(cfg, r)
    ensures |LiveCandidates(cfg, r)| == Zeros(cfg, r) <==> LiveCandidates(cfg, r) == CandidateMap(cfg, r)
    ensures |LiveCandidates(cfg, r)| < Zeros(cfg, r) ==> Unsolvable(cfg, r)
  {
    var live := LiveCandidates(cfg, r);
    assert |live| == |live.Keys|;
    SubsetCount(live.Keys, ZeroCells(cfg, r));
    if live.Keys == ZeroCells(cfg, r) {
      assert live == CandidateMap(cfg, r);
    } else {
      var p :| p in ZeroCells(cfg, r) && p !in live.Keys;
      SubsetCount(live.Keys, ZeroCells(cfg, r) - {p});
      EmptyCandidatesUnsolvable(cfg, r, p.0, p.1);
      assert p in CandidateMap(cfg, r) && p !in live;
    }
  }

  /** The returned map is the full candidate map exactly when every empty cell still has a candidate. */
  lemma LiveCandidatesComplete(cfg: Config, r: seq<seq<int>>)
    requires IsGrid(cfg, r)
    ensures LiveCandidates(cfg, r) == CandidateMap(cfg, r) <==>
              forall q :: q in ZeroCells(cfg, r) ==> Candidates(cfg, r, q.0, q.1) != {}
  {
    var live := LiveCandidates(cfg, r);
    if forall q :: q in ZeroCells(cfg, r) ==> Candidates(cfg, r, q.0, q.1) != {} {
      assert live.Keys == CandidateMap(cfg, r).Keys;
    }
    if live == CandidateMap(cfg, r) {
      forall q | q in ZeroCells(cfg, r) ensures Candidates(cfg, r, q.0, q.1) != {} {
        assert q in CandidateMap(cfg, r).Keys;
      }
    }
  }
}
