/**
 * The depth-first search: a stack of grids; pop one, propagate, and when
 * it is neither solved nor stuck, push one copy per candidate of a
 * chosen empty cell.
 */
module Search {
  import opened SudokuGrid
  import opened CandidateEngine
  import opened Propagation
  import opened KeySort
  import opened Consistency

  /** How the branching cell is chosen: fewest candidates first, or the first empty cell. */
  datatype Branching = MinimumRemaining | FirstOpen

  // ---------------------------------------------------------------------
  // Choosing the branching cell
  // ---------------------------------------------------------------------

  /**
   * The cell solve_stack branches on, given the candidate map of a grid
   * whose empty cells all have candidates: the keys in insertion order
   * are the empty cells in row-major order.
   */
  function ChooseKey(cfg: Config, g: seq<seq<int>>, m: map<Cell, set<int>>, branching: Branching): (key: Cell)
    requires IsGrid(cfg, g) && ZeroCells(cfg, g) != {}
    ensures key in ZeroCells(cfg, g)
  {
    var keys := OpenCells(cfg, g);
    assert |keys| > 0 by {
      var p :| p in ZeroCells(cfg, g);
      assert p in keys;
    }
    assert keys[0] in keys;
    match branching
    case FirstOpen => keys[0]
    case MinimumRemaining =>
      var i := FewestIndex(keys, m);
      assert keys[i] in keys;
      keys[i]
  }

  /**
   * FirstOpen picks the first empty cell in row-major order;
   * MinimumRemaining picks an empty cell with the fewest candidates, the
   * first such in row-major order.
   */
  lemma ChooseKeySpec(cfg: Config, g: seq<seq<int>>, branching: Branching)
    requires IsGrid(cfg, g) && ZeroCells(cfg, g) != {}
    ensures var key := ChooseKey(cfg, g, CandidateMap(cfg, g), branching);
      && (branching == FirstOpen ==> forall q :: q in ZeroCells(cfg, g) ==> !Before(q, key))
      && (branching == MinimumRemaining ==>
            forall q :: q in ZeroCells(cfg, g) ==>
              && |Candidates(cfg, g, key.0, key.1)| <= |Candidates(cfg, g, q.0, q.1)|
              && (Before(q, key) ==> |Candidates(cfg, g, key.0, key.1)| < |Candidates(cfg, g, q.0, q.1)|))
  {
    var keys, m := OpenCells(cfg, g), CandidateMap(cfg, g);
    var key := ChooseKey(cfg, g, m, branching);
    forall q | q in ZeroCells(cfg, g)
      ensures branching == FirstOpen ==> !Before(q, key)
      ensures branching == MinimumRemaining ==>
                && |Candidates(cfg, g, key.0, key.1)| <= |Candidates(cfg, g, q.0, q.1)|
                && (Before(q, key) ==> |Candidates(cfg, g, key.0, key.1)| < |Candidates(cfg, g, q.0, q.1)|)
    {
      assert q in keys;
      if branching == MinimumRemaining {
        SortedFewest(keys, m, q);
        assert key == keys[FewestIndex(keys, m)];
      } else {
        SortedHead(keys, q);
        assert key == keys[0];
      }
    }
  }

  /** No key of a row-major key order comes before its head. */
  lemma SortedHead(o: seq<Cell>, q: Cell)
    requires RowMajorSorted(o) && q in o
    ensures !Before(q, o[0])
  {
    var j :| 0 <= j < |o| && o[j] == q;
    if 0 < j {
      assert Before(o[0], o[j]);
    }
  }

  /** The key FewestIndex picks in a row-major order: fewest candidates, and the earliest cell among ties. */
  lemma SortedFewest(o: seq<Cell>, m: map<Cell, set<int>>, q: Cell)
    requires RowMajorSorted(o) && q in o
    ensures var key := o[FewestIndex(o, m)];
      && Count(m, key) <= Count(m, q)
      && (Before(q, key) ==> Count(m, key) < Count(m, q))
  {
    var j :| 0 <= j < |o| && o[j] == q;
    var i := FewestIndex(o, m);
    if i < j {
      assert Before(o[i], o[j]);
    }
  }

  // ---------------------------------------------------------------------
  // Termination measure
  // ---------------------------------------------------------------------

  /** c copies of x added up, written out so that the solver sees no multiplication. */
  function Times(c: nat, x: nat): nat {
    if c == 0 then 0 else Times(c - 1, x) + x
  }

  lemma {:induction false} TimesMonotone(c1: nat, c2: nat, x: nat)
    requires c1 <= c2
    ensures Times(c1, x) <= Times(c2, x)
    decreases c2
  {
    if c1 < c2 {
      TimesMonotone(c1, c2 - 1, x);
    }
  }

  function Pow(b: nat, e: nat): (r: nat)
    requires b >= 1
    ensures r >= 1
  {
    if e == 0 then 1
    else
      var r := Times(b, Pow(b, e - 1));
      TimesMonotone(1, b, Pow(b, e - 1));
      r
  }

  lemma {:induction false} PowMonotone(b: nat, e1: nat, e2: nat)
    requires b >= 1 && e1 <= e2
    ensures Pow(b, e1) <= Pow(b, e2)
    decreases e2
  {
    if e1 < e2 {
      PowMonotone(b, e1, e2 - 1);
      TimesMonotone(1, b, Pow(b, e2 - 1));
    }
  }

  /** At most N children with one empty cell fewer weigh less than their parent. */
  lemma ChildrenLighter(n: nat, c: nat, z: nat, e: nat)
    requires c <= n && e < z
    ensures Times(c, Pow(n + 1, e)) < Pow(n + 1, z)
  {
    PowMonotone(n + 1, e + 1, z);
    TimesMonotone(c, n, Pow(n + 1, e));
  }

  predicate AllGrids(cfg: Config, vals: seq<seq<seq<int>>>) {
    forall i :: 0 <= i < |vals| ==> IsGrid(cfg, vals[i])
  }

  /** The sum over the stack of (N+1) to the number of empty cells. */
  function Weight(cfg: Config, vals: seq<seq<seq<int>>>): nat
    requires AllGrids(cfg, vals)
  {
    if |vals| == 0 then 0
    else Weight(cfg, vals[..|vals| - 1]) + Pow(cfg.N() + 1, Zeros(cfg, vals[|vals| - 1]))
  }

  /** Grids with z empty cells each, pushed on the stack, add (N+1)^z each to its weight. */
  lemma {:induction false} WeightAppend(cfg: Config, rest: seq<seq<seq<int>>>, cs: seq<seq<seq<int>>>, z: nat)
    requires AllGrids(cfg, rest) && AllGrids(cfg, cs)
    requires forall i :: 0 <= i < |cs| ==> Zeros(cfg, cs[i]) == z
    ensures AllGrids(cfg, rest + cs)
    ensures Weight(cfg, rest + cs) == Weight(cfg, rest) + Times(|cs|, Pow(cfg.N() + 1, z))
    decreases |cs|
  {
    var all := rest + cs;
    if |cs| > 0 {
      var init := cs[..|cs| - 1];
      assert all[..|all| - 1] == rest + init;
      WeightAppend(cfg, rest, init, z);
      assert all[|all| - 1] == cs[|cs| - 1];
    } else {
      assert all == rest;
    }
  }

  // ---------------------------------------------------------------------
  // The stack as grids
  // ---------------------------------------------------------------------

  /** The copies of t with value values[i] written at `key`, in push order. */
  function Children(t: seq<seq<int>>, key: Cell, values: seq<int>): (cs: seq<seq<seq<int>>>)
    requires 0 <= key.0 < |t| && 0 <= key.1 < |t[key.0]|
    ensures |cs| == |values|
  {
    seq(|values|, i requires 0 <= i < |values| => SetCell(t, key.0, key.1, values[i]))
  }

  /** s completes some grid on the stack. */
  ghost predicate Covered(cfg: Config, s: seq<seq<int>>, vals: seq<seq<seq<int>>>) {
    exists i :: 0 <= i < |vals| && IsCompletion(cfg, s, vals[i])
  }

  /**
   * The search invariant: every grid on the stack is a well-formed grid
   * that keeps the givens of the input, and conflict-free when the input
   * is; and every solution of the input completes some grid on the stack.
   */
  ghost predicate Frontier(cfg: Config, start: seq<seq<int>>, vals: seq<seq<seq<int>>>) {
    && AllGrids(cfg, vals)
    && (forall i :: 0 <= i < |vals| ==> Extends(cfg, vals[i], start))
    && (IsGrid(cfg, start) && NoConflicts(cfg, start) ==> forall i :: 0 <= i < |vals| ==> NoConflicts(cfg, vals[i]))
    && (forall s :: IsCompletion(cfg, s, start) ==> Covered(cfg, s, vals))
  }

  /** The stack [input] is a frontier. */
  lemma FrontierStart(cfg: Config, start: seq<seq<int>>)
    requires IsGrid(cfg, start)
    ensures Frontier(cfg, start, [start])
  {
    forall s | IsCompletion(cfg, s, start) ensures Covered(cfg, s, [start]) {
      assert [start][0] == start;
    }
  }

  /** An empty frontier means the input has no solution. */
  lemma FrontierEmpty(cfg: Config, start: seq<seq<int>>)
    requires Frontier(cfg, start, [])
    ensures Unsolvable(cfg, start)
  {
  }

  /** Popping t and propagating it: each solution is on the rest of the stack or completes the propagated grid. */
  lemma CoverPop(cfg: Config, rest: seq<seq<seq<int>>>, t: seq<seq<int>>, s: seq<seq<int>>)
    requires IsGrid(cfg, t)
    requires Covered(cfg, s, rest + [t])
    ensures Covered(cfg, s, rest) || IsCompletion(cfg, s, Propagate(cfg, t))
  {
    var i :| 0 <= i < |rest + [t]| && IsCompletion(cfg, s, (rest + [t])[i]);
    if i < |rest| {
      assert (rest + [t])[i] == rest[i];
    } else {
      PropagateSameSolutions(cfg, s, t);
    }
  }

  /**
   * The popped grid propagates to a grid that keeps the givens of the
   * input; when it has no empty cell left and the input has a solution,
   * or merely has no conflicting givens, it is a solution of the input.
   */
  lemma SolvedStep(cfg: Config, start: seq<seq<int>>, rest: seq<seq<seq<int>>>, t: seq<seq<int>>)
    requires Frontier(cfg, start, rest + [t])
    ensures IsGrid(cfg, t) && Extends(cfg, Propagate(cfg, t), start)
    ensures Zeros(cfg, Propagate(cfg, t)) == 0 && !Unsolvable(cfg, start) ==> IsCompletion(cfg, Propagate(cfg, t), start)
    ensures Zeros(cfg, Propagate(cfg, t)) == 0 && IsGrid(cfg, start) && NoConflicts(cfg, start) ==>
              IsCompletion(cfg, Propagate(cfg, t), start)
  {
    assert (rest + [t])[|rest|] == t;
    ExtendsTransitive(cfg, Propagate(cfg, t), t, start);
    var g := Propagate(cfg, t);
    if Zeros(cfg, g) == 0 && !Unsolvable(cfg, start) {
      var s :| IsCompletion(cfg, s, start);
      SolvableNoConflicts(cfg, s, start);
    }
    if Zeros(cfg, g) == 0 && IsGrid(cfg, start) && NoConflicts(cfg, start) {
      assert NoConflicts(cfg, t);
      PropagateNoConflicts(cfg, t);
      FullNoConflictsValid(cfg, g);
    }
  }

  /** A dead end loses no solution, and the stack gets lighter. */
  lemma DeadEndStep(cfg: Config, start: seq<seq<int>>, rest: seq<seq<seq<int>>>, t: seq<seq<int>>)
    requires Frontier(cfg, start, rest + [t])
    requires IsGrid(cfg, t) && Unsolvable(cfg, Propagate(cfg, t))
    ensures Frontier(cfg, start, rest)
    ensures Weight(cfg, rest) < Weight(cfg, rest + [t])
  {
    var vals := rest + [t];
    assert vals[..|vals| - 1] == rest;
    forall i | 0 <= i < |rest| ensures IsGrid(cfg, rest[i]) && Extends(cfg, rest[i], start) {
      assert rest[i] == vals[i];
    }
    if IsGrid(cfg, start) && NoConflicts(cfg, start) {
      forall i | 0 <= i < |rest| ensures NoConflicts(cfg, rest[i]) {
        assert rest[i] == vals[i];
      }
    }
    forall s | IsCompletion(cfg, s, start) ensures Covered(cfg, s, rest) {
      CoverPop(cfg, rest, t, s);
    }
  }

  /** Each child is a grid with one empty cell fewer than its parent that keeps the givens of the input. */
  lemma ChildrenGrids(cfg: Config, start: seq<seq<int>>, t: seq<seq<int>>, key: Cell, values: seq<int>)
    requires Extends(cfg, t, start) && InRange(cfg, key) && t[key.0][key.1] == 0
    requires forall i :: 0 <= i < |values| ==> values[i] != 0
    ensures forall i :: 0 <= i < |values| ==>
      var c := Children(t, key, values)[i];
      IsGrid(cfg, c) && Zeros(cfg, c) == Zeros(cfg, t) - 1 && Extends(cfg, c, start)
  {
    var cs := Children(t, key, values);
    forall i | 0 <= i < |cs|
      ensures IsGrid(cfg, cs[i]) && Zeros(cfg, cs[i]) == Zeros(cfg, t) - 1 && Extends(cfg, cs[i], start)
    {
      FillOneZero(cfg, t, key.0, key.1, values[i]);
      FillExtends(cfg, t, t, key.0, key.1, values[i]);
      ExtendsTransitive(cfg, cs[i], t, start);
    }
  }

  /** Children of a conflict-free grid that hold candidates at `key` are conflict-free. */
  lemma ChildrenNoConflicts(cfg: Config, t: seq<seq<int>>, key: Cell, values: seq<int>)
    requires IsGrid(cfg, t) && NoConflicts(cfg, t) && key in ZeroCells(cfg, t)
    requires forall i :: 0 <= i < |values| ==> values[i] in Candidates(cfg, t, key.0, key.1)
    ensures forall i :: 0 <= i < |values| ==>
      IsGrid(cfg, Children(t, key, values)[i]) && NoConflicts(cfg, Children(t, key, values)[i])
  {
    forall i | 0 <= i < |values|
      ensures IsGrid(cfg, Children(t, key, values)[i]) && NoConflicts(cfg, Children(t, key, values)[i])
    {
      FillCandidateKeeps(cfg, t, key.0, key.1, values[i]);
    }
  }

  /** A solution of t completes the child that holds its value at `key`. */
  lemma ChildCompletes(cfg: Config, s: seq<seq<int>>, t: seq<seq<int>>, key: Cell, values: seq<int>) returns (i: nat)
    requires IsCompletion(cfg, s, t) && InRange(cfg, key) && t[key.0][key.1] == 0
    requires forall v :: v in Candidates(cfg, t, key.0, key.1) ==> v in values
    ensures i < |values| && IsCompletion(cfg, s, Children(t, key, values)[i])
  {
    CandidateSound(cfg, s, t, key.0, key.1);
    var v := s[key.0][key.1];
    i :| 0 <= i < |values| && values[i] == v;
    FillExtends(cfg, s, t, key.0, key.1, v);
  }

  lemma CoveredAt(cfg: Config, s: seq<seq<int>>, vals: seq<seq<seq<int>>>, i: int)
    requires 0 <= i < |vals| && IsCompletion(cfg, s, vals[i])
    ensures Covered(cfg, s, vals)
  {
  }

  /**
   * Replacing a grid by its children, one per candidate of `key`, loses
   * no solution: a solution that completes the grid completes one of them.
   */
  lemma ChildrenCover(cfg: Config, rest: seq<seq<seq<int>>>, t: seq<seq<int>>, key: Cell, values: seq<int>, s: seq<seq<int>>)
    requires IsGrid(cfg, t) && key in ZeroCells(cfg, t)
    requires forall v :: v in Candidates(cfg, t, key.0, key.1) ==> v in values
    requires Covered(cfg, s, rest) || IsCompletion(cfg, s, t)
    ensures Covered(cfg, s, rest + Children(t, key, values))
  {
    var cs := Children(t, key, values);
    var all := rest + cs;
    if Covered(cfg, s, rest) {
      var i :| 0 <= i < |rest| && IsCompletion(cfg, s, rest[i]);
      assert all[i] == rest[i];
      CoveredAt(cfg, s, all, i);
    } else {
      var i := ChildCompletes(cfg, s, t, key, values);
      assert all[|rest| + i] == cs[i];
      CoveredAt(cfg, s, all, |rest| + i);
    }
  }

  /** At most N children with z empty cells each weigh less than a parent with more than z. */
  lemma ChildrenLighterOnStack(cfg: Config, rest: seq<seq<seq<int>>>, t: seq<seq<int>>, cs: seq<seq<seq<int>>>, z: nat)
    requires AllGrids(cfg, rest) && IsGrid(cfg, t) && AllGrids(cfg, cs)
    requires |cs| <= cfg.N() && z < Zeros(cfg, t)
    requires forall i :: 0 <= i < |cs| ==> Zeros(cfg, cs[i]) == z
    ensures AllGrids(cfg, rest + cs) && AllGrids(cfg, rest + [t])
    ensures Weight(cfg, rest + cs) < Weight(cfg, rest + [t])
  {
    WeightAppend(cfg, rest, cs, z);
    WeightPush(cfg, rest, t);
    ChildrenLighter(cfg.N(), |cs|, Zeros(cfg, t), z);
  }

  lemma WeightPush(cfg: Config, rest: seq<seq<seq<int>>>, t: seq<seq<int>>)
    requires AllGrids(cfg, rest) && IsGrid(cfg, t)
    ensures AllGrids(cfg, rest + [t])
    ensures Weight(cfg, rest + [t]) == Weight(cfg, rest) + Pow(cfg.N() + 1, Zeros(cfg, t))
  {
    var all := rest + [t];
    assert all[..|all| - 1] == rest;
  }

  /**
   * Branching on an empty cell of the propagated grid: the children, one
   * per candidate, replace the popped grid, lose no solution and weigh
   * less than it.
   */
  lemma BranchStep(cfg: Config, start: seq<seq<int>>, rest: seq<seq<seq<int>>>, t: seq<seq<int>>,
                   key: Cell, values: seq<int>)
    requires Frontier(cfg, start, rest + [t]) && IsGrid(cfg, t)
    requires key in ZeroCells(cfg, Propagate(cfg, t))
    requires forall v :: v in values <==> v in Candidates(cfg, Propagate(cfg, t), key.0, key.1)
    requires forall i, j :: 0 <= i < j < |values| ==> values[i] != values[j]
    ensures Frontier(cfg, start, rest + Children(Propagate(cfg, t), key, values))
    ensures Weight(cfg, rest + Children(Propagate(cfg, t), key, values)) < Weight(cfg, rest + [t])
  {
    var t' := Propagate(cfg, t);
    var cs := Children(t', key, values);
    var vals := rest + [t];
    var all := rest + cs;
    assert vals[|rest|] == t;
    ExtendsTransitive(cfg, t', t, start);
    CandidatesWithinNumbers(cfg, t', key.0, key.1);
    forall i | 0 <= i < |values| ensures values[i] != 0 {
      assert values[i] in values;
    }
    ChildrenGrids(cfg, start, t', key, values);
    forall i | 0 <= i < |all| ensures IsGrid(cfg, all[i]) && Extends(cfg, all[i], start) {
      if i < |rest| { assert all[i] == vals[i]; } else { assert all[i] == cs[i - |rest|]; }
    }
    if NoConflicts(cfg, start) {
      PropagateNoConflicts(cfg, t);
      forall i | 0 <= i < |values| ensures values[i] in Candidates(cfg, t', key.0, key.1) {
        assert values[i] in values;
      }
      ChildrenNoConflicts(cfg, t', key, values);
      forall i | 0 <= i < |all| ensures NoConflicts(cfg, all[i]) {
        if i < |rest| { assert all[i] == vals[i]; } else { assert all[i] == cs[i - |rest|]; }
      }
    }
    forall s | IsCompletion(cfg, s, start) ensures Covered(cfg, s, all) {
      CoverPop(cfg, rest, t, s);
      ChildrenCover(cfg, rest, t', key, values, s);
    }
    DistinctCount(values, Candidates(cfg, t', key.0, key.1));
    assert key in ZeroCells(cfg, t');
    assert Zeros(cfg, t') > 0;
    forall i | 0 <= i < |rest| ensures IsGrid(cfg, rest[i]) {
      assert rest[i] == vals[i];
    }
    ChildrenLighterOnStack(cfg, rest, t, cs, Zeros(cfg, t') - 1);
  }

  /** One turn of the search that neither solves the popped grid t nor fails to replace it. */
  lemma Advance(cfg: Config, start: seq<seq<int>>, rest: seq<seq<seq<int>>>, t: seq<seq<int>>, g: seq<seq<int>>,
                children: seq<seq<seq<int>>>, key: Cell, values: seq<int>)
    requires Frontier(cfg, start, rest + [t]) && IsGrid(cfg, t) && g == Propagate(cfg, t)
    requires children == [] ==> Unsolvable(cfg, g)
    requires children != [] ==>
               && key in ZeroCells(cfg, g)
               && (forall v :: v in values <==> v in Candidates(cfg, g, key.0, key.1))
               && (forall i, j :: 0 <= i < j < |values| ==> values[i] != values[j])
               && children == Children(g, key, values)
    ensures Frontier(cfg, start, rest + children)
    ensures Weight(cfg, rest + children) < Weight(cfg, rest + [t])
  {
    if children == [] {
      assert rest + children == rest;
      DeadEndStep(cfg, start, rest, t);
    } else {
      BranchStep(cfg, start, rest, t, key, values);
    }
  }

  // ---------------------------------------------------------------------
  // solve_stack
  // ---------------------------------------------------------------------

  /**
   * The `for possible in possibles` loop: one copy of the grid per
   * candidate, with the candidate written at `key`, in the order they are
   * pushed. The order in which the set is iterated is left open.
   */
  method Branch(g: seq<seq<int>>, key: Cell, possibles: set<int>)
    returns (children: seq<seq<seq<int>>>, values: seq<int>)
    requires 0 <= key.0 < |g| && 0 <= key.1 < |g[key.0]|
    ensures forall v :: v in values <==> v in possibles
    ensures forall i, j :: 0 <= i < j < |values| ==> values[i] != values[j]
    ensures children == Children(g, key, values)
  {
    children, values := [], [];
    var pending := possibles;
    while pending != {}
      invariant pending <= possibles
      invariant forall v :: v in values <==> v in possibles - pending
      invariant forall i, j :: 0 <= i < j < |values| ==> values[i] != values[j]
      invariant children == Children(g, key, values)
      decreases |pending|
    {
      EmptyHasNoMember(pending);
      var possible :| possible in pending;
      assert possible !in values;
      var next := SetCell(g, key.0, key.1, possible);
      children := children + [next];
      values := values + [possible];
      pending := pending - {possible};
    }
  }

  /**
   * One turn of solve_stack's loop on the popped grid: propagate it in
   * place; unless that solves it, branch on the chosen cell when every
   * empty cell still has candidates, and report a dead end otherwise.
   */
  method Expand(cfg: Config, top: Grid, branching: Branching)
    returns (solved: bool, children: seq<seq<seq<int>>>, ghost key: Cell, ghost values: seq<int>)
    requires IsGrid(cfg, top.cells)
    modifies top
    ensures top.cells == Propagate(cfg, old(top.cells))
    ensures solved <==> Zeros(cfg, top.cells) == 0
    ensures !solved ==>
              (children != [] <==> forall q :: q in ZeroCells(cfg, top.cells) ==> Candidates(cfg, top.cells, q.0, q.1) != {})
    ensures !solved && children == [] ==> Unsolvable(cfg, top.cells)
    ensures !solved && children != [] ==>
              && key == ChooseKey(cfg, top.cells, CandidateMap(cfg, top.cells), branching)
              && key in ZeroCells(cfg, top.cells)
              && (forall v :: v in values <==> v in Candidates(cfg, top.cells, key.0, key.1))
              && (forall i, j :: 0 <= i < j < |values| ==> values[i] != values[j])
              && children == Children(top.cells, key, values)
  {
    var openSpots, possiblePositions := FillGuaranteed(cfg, top);
    solved := openSpots == 0;
    children, key, values := [], (0, 0), [];
    if solved {
      return;
    }
    LiveCandidatesCount(cfg, top.cells);
    LiveCandidatesComplete(cfg, top.cells);
    if |possiblePositions| > 0 && |possiblePositions| == openSpots {
      var k := ChooseKey(cfg, top.cells, possiblePositions, branching);
      var pushed;
      children, pushed := Branch(top.cells, k, possiblePositions[k]);
      key, values := k, pushed;
      assert k in LiveCandidates(cfg, top.cells);
      if values == [] {
        EmptyHasNoMember(possiblePositions[k]);
        assert false;
      }
    }
  }

  /**
   * solve_stack: depth-first search over copies of the grid. Returns the
   * first grid propagation leaves without empty cells, or the input grid
   * object, which the first propagation has already filled in place, when
   * the stack runs dry; that only happens when the input has no solution.
   */
  method SolveStack(cfg: Config, sudoku: Grid, branching: Branching) returns (r: Grid)
    requires IsGrid(cfg, sudoku.cells)
    modifies sudoku
    ensures r == sudoku || fresh(r)
    ensures sudoku.cells == Propagate(cfg, old(sudoku.cells))
    ensures IsGrid(cfg, r.cells) && Extends(cfg, r.cells, old(sudoku.cells))
    ensures Zeros(cfg, r.cells) == 0 || (r == sudoku && Unsolvable(cfg, old(sudoku.cells)))
    ensures !Unsolvable(cfg, old(sudoku.cells)) ==> IsCompletion(cfg, r.cells, old(sudoku.cells))
    ensures NoConflicts(cfg, old(sudoku.cells)) && Unsolvable(cfg, old(sudoku.cells)) ==> r == sudoku
    ensures Zeros(cfg, Propagate(cfg, old(sudoku.cells))) == 0 ==> r == sudoku
  {
    ghost var start := sudoku.cells;
    var stack := [sudoku.cells];
    var first := true;
    FrontierStart(cfg, start);
    while |stack| > 0
      invariant first ==> stack == [start] && sudoku.cells == start
      invariant !first ==> sudoku.cells == Propagate(cfg, start)
      invariant !first ==> Zeros(cfg, Propagate(cfg, start)) != 0
      invariant Frontier(cfg, start, stack)
      decreases Weight(cfg, stack)
    {
      ghost var t := stack[|stack| - 1];
      var rest := stack[..|stack| - 1];
      assert stack == rest + [t];
      SolvedStep(cfg, start, rest, t);
      var top: Grid;
      if first {
        top := sudoku;
      } else {
        top := new Grid(stack[|stack| - 1]);
      }
      assert top == sudoku ==> t == start;
      var solved, children, key, values := Expand(cfg, top, branching);
      assert sudoku.cells == Propagate(cfg, start) by {
        if !first {
          assert top != sudoku;
        }
      }
      first := false;
      if solved {
        return top;
      }
      Advance(cfg, start, rest, t, top.cells, children, key, values);
      stack := rest + children;
    }
    FrontierEmpty(cfg, start);
    return sudoku;
  }
}
