/**
 * The SudokuMatrix object: the arena of links as fields that its methods
 * update in place, with every method proved to leave exactly the state that
 * the functions of module Dance describe.
 */
module Solver {
  import opened Layout
  import opened Rings
  import opened Dance
  import opened Build
  import opened Walks
  import opened History
  import opened Grid
  import opened Search
  import opened Givens
  import opened Completeness

  /** What find_solutions returns: the only solution found, or else the grid it was given. */
  datatype Answer = Solved(grid: string) | Original(entries: seq<Entry>)

  /**
   * find_solutions: build a SudokuMatrix for the grid es, run solve from the
   * top, and return the solution if exactly one was found, the original grid
   * if more were, and IndexError if none was (solutions[0] of an empty
   * list). The exceptions of __init__ and set_grid come out unchanged. When
   * solutions are wanted at all, the three answers mean: the givens have no
   * completion to an exact cover; a completion was found, and when two or
   * more were asked for it is the only one; at least two different
   * completions exist. A grid already full of consistent givens comes back
   * as its own solution.
   */
  method FindSolutions(es: seq<Entry>, n: int, boxWidth: int, numSols: int) returns (r: Result<Answer>)
    requires boxWidth >= 0
    requires Config(n, boxWidth).Valid() ==> Consistent(Config(n, boxWidth), es)
    ensures !Config(n, boxWidth).Valid() ==> r == Err(ConfigError(n, boxWidth).value)
    ensures Config(n, boxWidth).Valid() && |es| != n * n ==> r == Err(AssertionError)
    ensures Config(n, boxWidth).Valid() && |es| == n * n ==>
      var cfg := Config(n, boxWidth);
      var load := Load(cfg, es, |es|);
      && (load.err.Some? ==> r == Err(ValueError))
      && (load.err.None? && numSols <= 0 ==> r == Err(IndexError))
      && (load.err.None? && numSols > 0 ==> (r == Err(IndexError) <==> forall g :: !Solution(cfg, g, load.cs)))
      && (r.Ok? && r.value.Solved? ==> Solution(cfg, r.value.grid, load.cs))
      && (r.Ok? && r.value.Solved? && numSols >= 2 ==> forall g :: Solution(cfg, g, load.cs) ==> g == r.value.grid)
      && (r.Ok? && r.value.Original? ==>
            exists g1, g2 :: g1 != g2 && Solution(cfg, g1, load.cs) && Solution(cfg, g2, load.cs))
      && (numSols > 0 && (forall k :: 0 <= k < |es| ==> Fills(cfg, es[k])) ==>
            && r.Ok? && r.value.Solved? && |r.value.grid| == |es|
            && forall k :: 0 <= k < |es| ==> r.value.grid[k] == DIGITS[CellDigit(cfg, es[k]).value - 1])
    ensures r.Ok? ==> Config(n, boxWidth).Valid() && |es| == n * n
    ensures r.Ok? && r.value.Original? ==> r.value.entries == es && numSols >= 2
    ensures r.Err? ==> r.error in {AssertionError, ZeroDivisionError, ValueError, IndexError}
  {
    var e := ConfigError(n, boxWidth);
    if e.Some? {
      return Err(e.value);
    }
    var cfg := Config(n, boxWidth);
    var err, solutions, ok := SolveGrid(cfg, es, numSols);
    if err.Some? {
      if |es| == cfg.Cells() {
        LoadRaises(cfg, es, |es|);
        if forall k :: 0 <= k < |es| ==> Fills(cfg, es[k]) {
          LoadFull(cfg, es, |es|);
        }
      }
      return Err(err.value);
    }
    ghost var cs := Load(cfg, es, |es|).cs;
    if numSols > 0 {
      Outcome(cfg, cs, numSols, solutions);
    }
    if !ok || |solutions| == 0 {
      return Err(IndexError);
    }
    if |solutions| == 1 {
      if numSols > 0 && forall k :: 0 <= k < |es| ==> Fills(cfg, es[k]) {
        LoadedText(cfg, es, solutions[0]);
      }
      return Ok(Solved(solutions[0]));
    }
    return Ok(Original(es));
  }

  /**
   * The first two lines of find_solutions on a valid configuration: the
   * SudokuMatrix constructor, which builds the matrix and loads the grid
   * with set_grid, and solve from the top. What solve returns is a list of
   * pairwise different solutions keeping the givens, complete unless
   * numSols ran out; a full grid of givens is its own one solution.
   */
  method SolveGrid(cfg: Config, es: seq<Entry>, numSols: int) returns (err: Option<Exception>, solutions: seq<string>, ok: bool)
    requires cfg.Valid() && Consistent(cfg, es)
    ensures |es| != cfg.Cells() ==> err == Some(AssertionError)
    ensures |es| == cfg.Cells() ==> var load := Load(cfg, es, |es|);
      && err == load.err
      && (err.None? ==>
            && SolutionsFrom(cfg, solutions, 0, load.cs) && Unique(solutions, 0)
            && (numSols - |solutions| > 0 ==> AllFound(cfg, solutions, 0, load.cs))
            && (!ok || numSols <= 0 ==> solutions == []) && (numSols > 0 ==> |solutions| <= numSols)
            && (numSols > 0 && (forall k :: 0 <= k < |es| ==> Fills(cfg, es[k])) ==>
                  ok && |solutions| == 1 && Shows(cfg, solutions[0], load.cs)))
  {
    solutions, ok := [], false;
    var matrix := new SudokuMatrix(cfg, numSols);
    err := matrix.SetGrid(es);
    if err.Some? {
      return;
    }
    if numSols > 0 && forall k :: 0 <= k < |es| ==> Fills(cfg, es[k]) {
      FullStart(cfg, es, matrix.trail, matrix.choices, matrix.Snapshot());
    }
    solutions, ok := matrix.Solve([], 0);
  }

  /**
   * The matrix initialize_matrix leaves behind: every invariant holds, every
   * Constraint is open with n Candidates, and every Candidate is alive.
   */
  lemma Ready(cfg: Config, s: Dlx)
    requires Partial(cfg, s, cfg.ArenaSize())
    ensures Good(cfg, s) && Uncovered(cfg, s.covered) == AllHeaderSet(cfg)
    ensures s.size[0] == cfg.NumCandidates() && forall k :: IsHeader(cfg, k) ==> s.size[k] == cfg.n && !s.covered[k]
    ensures forall c :: 0 <= c < cfg.NumCandidates() ==> Alive(cfg, s, c)
  {
    Finished(cfg, s);
    AllHeaderSetMember(cfg);
  }

  class SudokuMatrix {
    const cfg: Config
    var left: seq<int>
    var right: seq<int>
    var up: seq<int>
    var down: seq<int>
    var size: seq<int>
    var covered: seq<bool>
    /** The slots reachable from their column headers; implicit in the source. */
    ghost var linked: set<int>
    var choices: seq<Choice>
    var numSols: int
    /** The state before each entry of choices was chosen. */
    ghost var trail: seq<Dlx>

    ghost function Snapshot(): Dlx
      reads this`left, this`right, this`up, this`down, this`size, this`covered, this`linked
    {
      Dlx(left, right, up, down, size, covered, linked)
    }

    /**
     * The invariant between operations: the links form a well-formed matrix,
     * trail holds the state before each entry of choices was chosen, and
     * before the first choice every Constraint was open and every Candidate
     * available.
     */
    ghost predicate Valid()
      reads this`left, this`right, this`up, this`down, this`size, this`covered, this`linked
      reads this`choices, this`trail
    {
      && Good(cfg, Snapshot())
      && Chain(cfg, trail, choices, Snapshot())
      && Pristine(cfg, Base(trail, Snapshot()))
    }

    /** Node.cover_node. */
    method CoverNode(x: int)
      requires Shaped(cfg, Snapshot()) && IsNode(cfg, x)
      modifies this
      ensures Snapshot() == CoverNodeF(cfg, old(Snapshot()), x)
      ensures choices == old(choices) && numSols == old(numSols) && trail == old(trail)
    {
      ColOfInRange(cfg, x);
      var k := ColOf(cfg, x);
      down := down[up[x] := down[x]];
      up := up[down[x] := up[x]];
      size := size[k := size[k] - 1];
      linked := linked - {x};
    }

    /** Node.uncover_node. */
    method UncoverNode(x: int)
      requires Shaped(cfg, Snapshot()) && IsNode(cfg, x)
      modifies this
      ensures Snapshot() == UncoverNodeF(cfg, old(Snapshot()), x)
      ensures choices == old(choices) && numSols == old(numSols) && trail == old(trail)
    {
      ColOfInRange(cfg, x);
      var k := ColOf(cfg, x);
      up := up[down[x] := x];
      down := down[up[x] := x];
      size := size[k := size[k] + 1];
      linked := linked + {x};
    }

    /** The inner loop of Constraint.cover: cover_node every Node of x's row, going right from x. */
    method CoverRow(x: int)
      requires Shaped(cfg, Snapshot()) && IsNode(cfg, x)
      requires RightRing(cfg, right)
      requires AllNodes(cfg, RowMates(cfg, x))
      modifies this
      ensures Snapshot() == CoverSeq(cfg, old(Snapshot()), RowMates(cfg, x))
      ensures choices == old(choices) && numSols == old(numSols) && trail == old(trail)
    {
      ghost var s := Snapshot();
      ghost var R := RowMates(cfg, x);
      RowRightLinks(cfg, right, x, 0);
      var rightNode := right[x];
      ghost var j := 0;
      while rightNode != x
        invariant 0 <= j <= 4 && AllNodes(cfg, R[..j])
        invariant rightNode == if j < 4 then R[j] else x
        invariant Snapshot() == CoverSeq(cfg, s, R[..j]) && right == s.right
        invariant choices == old(choices) && numSols == old(numSols) && trail == old(trail)
        decreases 4 - j
      {
        CoverPrefixStep(cfg, s, R, j);
        CoverNode(rightNode);
        RowRightLinks(cfg, right, x, j);
        rightNode := right[rightNode];
        j := j + 1;
      }
      assert R[..4] == R;
    }

    /** The inner loop of Constraint.uncover: uncover_node every Node of x's row, going left from x. */
    method UncoverRow(x: int)
      requires Shaped(cfg, Snapshot()) && IsNode(cfg, x)
      requires LeftRing(cfg, left)
      requires AllNodes(cfg, RowMates(cfg, x))
      modifies this
      ensures Snapshot() == UncoverSeq(cfg, old(Snapshot()), RowMates(cfg, x))
      ensures choices == old(choices) && numSols == old(numSols) && trail == old(trail)
    {
      ghost var s := Snapshot();
      ghost var R := RowMates(cfg, x);
      RowLeftLinks(cfg, left, x, 3);
      var leftNode := left[x];
      ghost var j := 4;
      while leftNode != x
        invariant 0 <= j <= 4 && AllNodes(cfg, R[j..])
        invariant leftNode == if j > 0 then R[j - 1] else x
        invariant Snapshot() == UncoverSeq(cfg, s, R[j..]) && left == s.left
        invariant choices == old(choices) && numSols == old(numSols) && trail == old(trail)
        decreases j
      {
        UncoverSuffixStep(cfg, s, R, j);
        UncoverNode(leftNode);
        RowLeftLinks(cfg, left, x, j - 1);
        leftNode := left[leftNode];
        j := j - 1;
      }
      assert R[0..] == R;
    }

    /** Constraint.cover: unlink c from the header ring, then walk down column c covering the row of every Node met. */
    method Cover(c: int)
      requires Good(cfg, Snapshot()) && IsHeader(cfg, c)
      modifies this
      ensures Snapshot() == CoverF(cfg, old(Snapshot()), c)
      ensures choices == old(choices) && numSols == old(numSols) && trail == old(trail)
    {
      ArenaBounds(cfg);
      if !covered[c] {
        ghost var s := Snapshot();
        covered := covered[c := true];
        right := right[left[c] := right[c]];
        left := left[right[c] := left[c]];
        assert Snapshot() == UnlinkHeader(cfg, s, c);
        CoverColumn(c, s);
      }
    }

    /** The loop of Constraint.cover: with c unlinked from the header ring, cover the row of every Node under c, top to bottom. */
    method CoverColumn(c: int, ghost s: Dlx)
      requires Good(cfg, s) && IsHeader(cfg, c) && !s.covered[c] && Snapshot() == UnlinkHeader(cfg, s, c)
      modifies this
      ensures Snapshot() == CoverF(cfg, s, c)
      ensures choices == old(choices) && numSols == old(numSols) && trail == old(trail)
    {
      ghost var u := Snapshot();
      ghost var F := Filter(Members(cfg, c), s.linked);
      ghost var W := Sweep(cfg, s, c);
      SweepEnds(cfg, s, c, u, W, F);
      SweepLinks(cfg, s, c, u, W, F, 0);
      var downNode := down[c];
      ghost var i := 0;
      while downNode != c
        invariant 0 <= i <= |F| && AllNodes(cfg, W[..4 * i]) && AllNodes(cfg, F)
        invariant downNode == if i < |F| then F[i] else c
        invariant Snapshot() == CoverSeq(cfg, u, W[..4 * i])
        invariant choices == old(choices) && numSols == old(numSols) && trail == old(trail)
        decreases |F| - i
      {
        SweepDown(cfg, s, c, u, W, F, i);
        CoverRow(downNode);
        downNode := down[downNode];
        i := i + 1;
      }
    }

    /**
     * Constraint.uncover: relink c into the header ring, then walk up column c
     * uncovering the row of every Node met. When c is covered, the state must
     * be the one covering c produced from s.
     */
    method Uncover(c: int, ghost s: Dlx)
      requires Shaped(cfg, Snapshot()) && IsHeader(cfg, c)
      requires covered[c] ==> Good(cfg, s) && !s.covered[c] && Snapshot() == CoverF(cfg, s, c)
      modifies this
      ensures Snapshot() == UncoverF(cfg, old(Snapshot()), c)
      ensures old(covered[c]) ==> Snapshot() == s
      ensures choices == old(choices) && numSols == old(numSols) && trail == old(trail)
    {
      ArenaBounds(cfg);
      if covered[c] {
        CoverUndo(cfg, s, c);
        covered := covered[c := false];
        left := left[right[c] := c];
        right := right[left[c] := c];
        assert Snapshot() == RelinkHeader(cfg, CoverF(cfg, s, c), c);
        UncoverColumn(c, s);
      }
    }

    /** The loop of Constraint.uncover: with c relinked, uncover the row of every Node under c, bottom to top. */
    method UncoverColumn(c: int, ghost s: Dlx)
      requires Good(cfg, s) && IsHeader(cfg, c) && !s.covered[c]
      requires Snapshot() == RelinkHeader(cfg, CoverF(cfg, s, c), c)
      modifies this
      ensures Snapshot() == s
      ensures choices == old(choices) && numSols == old(numSols) && trail == old(trail)
    {
      ghost var u := UnlinkHeader(cfg, s, c);
      ghost var F := Filter(Members(cfg, c), s.linked);
      ghost var W := Sweep(cfg, s, c);
      SweepEnds(cfg, s, c, u, W, F);
      SweepRelink(cfg, s, c, u, W, F);
      SweepUpLink(cfg, s, c, u, W, F, |F|);
      var upNode := up[c];
      ghost var i := |F|;
      while upNode != c
        invariant 0 <= i <= |F| && AllNodes(cfg, W[..4 * i]) && AllNodes(cfg, F)
        invariant upNode == if i > 0 then F[i - 1] else c
        invariant Snapshot() == CoverSeq(cfg, s, W[..4 * i])
        invariant choices == old(choices) && numSols == old(numSols) && trail == old(trail)
        decreases i
      {
        SweepUp(cfg, s, c, u, W, F, i - 1);
        UncoverRow(upNode);
        upNode := up[upNode];
        i := i - 1;
      }
    }
 
    /** The loop of Candidate.choose: cover the Constraint of every Node met going right from the head of Candidate cand. */
    method CoverConstraints(cand: int)
      requires Good(cfg, Snapshot()) && 0 <= cand < cfg.NumCandidates() && AllOpen(Snapshot(), ConsList(cfg, cand))
      modifies this
      ensures Snapshot() == ChooseF(cfg, old(Snapshot()), cand)
      ensures choices == old(choices) && numSols == old(numSols) && trail == old(trail)
    {
      ghost var s := Snapshot();
      ghost var K := ConsList(cfg, cand);
      ConsListProps(cfg, cand);
      RowStep(cfg, s, cand, 0);
      var h := cfg.First() + 5 * cand;
      var x := right[h];
      ghost var j := 0;
      while x != h
        invariant 0 <= j <= 4 && x == if j < 4 then Slot(cfg, cand, j + 1) else h
        invariant AllHeaders(cfg, K[..j]) && Snapshot() == CoverList(cfg, s, K[..j])
        invariant choices == old(choices) && numSols == old(numSols) && trail == old(trail)
        decreases 4 - j
      {
        ChooseStep(cfg, s, cand, j);
        Cover(ColOf(cfg, x));
        x := right[x];
        j := j + 1;
      }
      ChooseAll(cfg, s, cand);
    }
 
    /** Candidate.choose: push the Candidate with its cell on choices, then cover its four Constraints. */
    method Choose(cand: int)
      requires Valid() && 0 <= cand < cfg.NumCandidates() && AllOpen(Snapshot(), ConsList(cfg, cand))
      modifies this
      ensures Valid()
      ensures Snapshot() == ChooseF(cfg, old(Snapshot()), cand)
      ensures choices == old(choices) + [ChoiceOf(cfg, cand)] && trail == old(trail) + [old(Snapshot())]
      ensures numSols == old(numSols)
    {
      ghost var s := Snapshot();
      ChainPush(cfg, trail, choices, s, cand);
      ChooseGood(cfg, s, cand);
      choices := choices + [Choice(CandLoc(cfg, cand), cand)];
      trail := trail + [s];
      CoverConstraints(cand);
    }

    /**
     * Candidate.unchoose: uncover the Candidate's Constraints in the reverse of
     * their order (box, col, row, cel). Right after choose from state t it
     * restores t exactly.
     */
    method Unchoose(cand: int, ghost t: Dlx)
      requires Good(cfg, t) && 0 <= cand < cfg.NumCandidates() && AllOpen(t, ConsList(cfg, cand))
      requires Snapshot() == ChooseF(cfg, t, cand)
      modifies this
      ensures Snapshot() == t
      ensures choices == old(choices) && numSols == old(numSols) && trail == old(trail)
    {
      var ks := ConsList(cfg, cand);
      ChooseAll(cfg, t, cand);
      var f := 4;
      while f > 0
        invariant 0 <= f <= 4 && AllHeaders(cfg, ks[..f]) && Snapshot() == CoverList(cfg, t, ks[..f])
        invariant choices == old(choices) && numSols == old(numSols) && trail == old(trail)
        decreases f
      {
        f := f - 1;
        ChooseStep(cfg, t, cand, f);
        Uncover(ks[f], CoverList(cfg, t, ks[..f]));
      }
    }

    /**
     * SudokuMatrix.backtrack: pop the last choice and unchoose its Candidate,
     * returning to the state before it was chosen. Popping an empty stack is
     * the IndexError of the source: ok is false and nothing changes.
     */
    method Backtrack() returns (ok: bool)
      requires Valid()
      modifies this
      ensures Valid() && numSols == old(numSols)
      ensures ok <==> old(choices) != []
      ensures !ok ==> Snapshot() == old(Snapshot()) && choices == old(choices) && trail == old(trail)
      ensures ok ==> var k := |old(choices)| - 1;
        && choices == old(choices)[..k] && trail == old(trail)[..k] && Snapshot() == old(trail)[k]
    {
      if choices == [] {
        return false;
      }
      ghost var k := |choices| - 1;
      ChainPop(cfg, trail, choices, Snapshot());
      var last := choices[|choices| - 1].cand;
      ghost var t := trail[k];
      choices := choices[..|choices| - 1];
      trail := trail[..k];
      Unchoose(last, t);
      ok := true;
    }
 
    // -------------------------------------------------------------------------
    // Construction

    /**
     * SudokuMatrix.__init__ up to set_grid, which find_solutions calls next:
     * record n, boxWidth and numSols and build the matrix. Every Constraint
     * starts open with n Nodes, the Root counts n^3 Candidates, and nothing
     * is chosen.
     */
    constructor (cfg: Config, numSols: int)
      requires cfg.Valid()
      ensures this.cfg == cfg && this.numSols == numSols
      ensures Valid() && choices == [] && trail == []
      ensures size[0] == cfg.NumCandidates() && forall k :: IsHeader(cfg, k) ==> size[k] == cfg.n && !covered[k]
      ensures forall c :: 0 <= c < cfg.NumCandidates() ==> Alive(cfg, Snapshot(), c)
    {
      this.cfg := cfg;
      this.numSols := numSols;
      new;
      InitializeMatrix();
    }

    /**
     * SudokuMatrix.initialize_matrix: a fresh Root, the 4n^2 Constraints in the
     * order cell, row, column, box for each cell index, then the n^3
     * Candidates row by row, column by column, digit by digit.
     */
    method InitializeMatrix()
      requires cfg.Valid()
      modifies this
      ensures Valid() && choices == [] && trail == [] && numSols == old(numSols)
      ensures size[0] == cfg.NumCandidates() && forall k :: IsHeader(cfg, k) ==> size[k] == cfg.n && !covered[k]
      ensures forall c :: 0 <= c < cfg.NumCandidates() ==> Alive(cfg, Snapshot(), c)
    {
      Clear();
      NewRoot();
      AddConstraints();
      AddCandidates();
      Built();
    }

    /** A fully built matrix with no choices made is a valid one, every Constraint open and every Candidate alive. */
    lemma Built()
      requires Partial(cfg, Snapshot(), cfg.ArenaSize()) && choices == [] && trail == []
      ensures Valid()
      ensures size[0] == cfg.NumCandidates() && forall k :: IsHeader(cfg, k) ==> size[k] == cfg.n && !covered[k]
      ensures forall c :: 0 <= c < cfg.NumCandidates() ==> Alive(cfg, Snapshot(), c)
    {
      Ready(cfg, Snapshot());
    }

    /** The arena before initialize_matrix links anything: every slot unlinked, no choices made. */
    method Clear()
      requires cfg.Valid()
      modifies this
      ensures Snapshot() == Blank(cfg) && choices == [] && trail == [] && numSols == old(numSols)
    {
      var blank := Blank(cfg);
      left, right, up, down := blank.left, blank.right, blank.up, blank.down;
      size, covered, linked := blank.size, blank.covered, blank.linked;
      choices := [];
      trail := [];
    }

    /** Root.__init__: the Root links to itself all four ways and counts n^3 Candidates. */
    method NewRoot()
      requires Shaped(cfg, Snapshot())
      modifies this
      ensures Snapshot() == RootF(cfg, old(Snapshot()))
      ensures choices == old(choices) && numSols == old(numSols) && trail == old(trail)
    {
      ArenaBounds(cfg);
      up := up[0 := 0];
      down := down[0 := 0];
      left := left[0 := 0];
      right := right[0 := 0];
      size := size[0 := cfg.NumCandidates()];
    }

    /** The header loops of initialize_matrix: the cell, row, column and box Constraint of each index in turn. */
    method AddConstraints()
      requires cfg.Valid() && Snapshot() == RootF(cfg, Blank(cfg))
      modifies this
      ensures Partial(cfg, Snapshot(), cfg.First())
      ensures choices == old(choices) && numSols == old(numSols) && trail == old(trail)
    {
      RootOk(cfg);
      var k := 0;
      for i := 0 to cfg.n
        invariant k == 4 * (i * cfg.n) && HeadersBuilt(cfg, Snapshot(), k)
        invariant choices == old(choices) && numSols == old(numSols) && trail == old(trail)
      {
        k := AddConstraintRow(i, k);
      }
      HeadersDone(cfg, Snapshot());
    }

    /** One pass of the i loop of initialize_matrix: the Constraints of cells (i, 0) .. (i, n - 1). */
    method AddConstraintRow(i: int, k0: int) returns (k: int)
      requires 0 <= i < cfg.n && k0 == 4 * (i * cfg.n) && HeadersBuilt(cfg, Snapshot(), k0)
      modifies this
      ensures k == 4 * ((i + 1) * cfg.n) && HeadersBuilt(cfg, Snapshot(), k)
      ensures choices == old(choices) && numSols == old(numSols) && trail == old(trail)
    {
      k := k0;
      for j := 0 to cfg.n
        invariant k == 4 * (i * cfg.n + j) && HeadersBuilt(cfg, Snapshot(), k)
        invariant choices == old(choices) && numSols == old(numSols) && trail == old(trail)
      {
        CellBound(cfg, i, j);
        k := AddConstraintCell(k);
      }
      assert (i + 1) * cfg.n == i * cfg.n + cfg.n;
    }

    /** One pass of the j loop of initialize_matrix: the cell, row, column and box Constraints, in that order. */
    method AddConstraintCell(k0: int) returns (k: int)
      requires HeadersBuilt(cfg, Snapshot(), k0) && k0 + 4 <= cfg.NumHeaders()
      modifies this
      ensures k == k0 + 4 && HeadersBuilt(cfg, Snapshot(), k)
      ensures choices == old(choices) && numSols == old(numSols) && trail == old(trail)
    {
      k := AddConstraint(k0);
      k := AddConstraint(k);
      k := AddConstraint(k);
      k := AddConstraint(k);
    }

    /** One Constraint(self) call of initialize_matrix: header k0 + 1 joins the Root's ring. */
    method AddConstraint(k0: int) returns (k: int)
      requires HeadersBuilt(cfg, Snapshot(), k0) && k0 < cfg.NumHeaders()
      modifies this
      ensures k == k0 + 1 && HeadersBuilt(cfg, Snapshot(), k)
      ensures choices == old(choices) && numSols == old(numSols) && trail == old(trail)
    {
      ConstraintOk(cfg, Snapshot(), k0);
      NewConstraint(k0 + 1);
      k := k0 + 1;
    }

    /**
     * Constraint.__init__ for header k: size n, linked in just left of the
     * Root, a vertical ring of one, not covered.
     */
    method NewConstraint(k: int)
      requires Shaped(cfg, Snapshot()) && IsHeader(cfg, k)
      modifies this
      ensures Snapshot() == ConstraintF(cfg, old(Snapshot()), k)
      ensures choices == old(choices) && numSols == old(numSols) && trail == old(trail)
    {
      ArenaBounds(cfg);
      size := size[k := cfg.n];
      var prev := left[0];
      right := right[prev := k];
      left := left[k := prev];
      right := right[k := 0];
      left := left[0 := k];
      up := up[k := k];
      down := down[k := k];
      covered := covered[k := false];
    }

    /** The Candidate loops of initialize_matrix, row by row. */
    method AddCandidates()
      requires Partial(cfg, Snapshot(), cfg.First())
      modifies this
      ensures Partial(cfg, Snapshot(), cfg.ArenaSize())
      ensures choices == old(choices) && numSols == old(numSols) && trail == old(trail)
    {
      var h := cfg.First();
      for row := 0 to cfg.n
        invariant h == Head(cfg, Cand(cfg, row, 0, 0)) && Partial(cfg, Snapshot(), h)
        invariant choices == old(choices) && numSols == old(numSols) && trail == old(trail)
      {
        h := AddRow(row, h);
      }
      CandEnd(cfg);
      assert h == cfg.ArenaSize();
    }

    /** One pass of the row loop of initialize_matrix: the Candidates of the cells of the row, column by column. */
    method AddRow(row: int, h0: int) returns (h: int)
      requires 0 <= row < cfg.n && h0 == Head(cfg, Cand(cfg, row, 0, 0)) && Partial(cfg, Snapshot(), h0)
      modifies this
      ensures h == Head(cfg, Cand(cfg, row + 1, 0, 0)) && Partial(cfg, Snapshot(), h)
      ensures choices == old(choices) && numSols == old(numSols) && trail == old(trail)
    {
      h := h0;
      for col := 0 to cfg.n
        invariant h == Head(cfg, Cand(cfg, row, col, 0)) && Partial(cfg, Snapshot(), h)
        invariant choices == old(choices) && numSols == old(numSols) && trail == old(trail)
      {
        var box := col / cfg.boxWidth + cfg.BoxHeight() * (row / cfg.BoxHeight());
        h := AddCell(row, col, box, h);
      }
      CandNext(cfg, row, cfg.n - 1);
    }

    /** One pass of the column loop of initialize_matrix: a Candidate for each digit of cell (row, col). */
    method AddCell(row: int, col: int, box: int, h0: int) returns (h: int)
      requires cfg.Valid() && 0 <= row < cfg.n && 0 <= col < cfg.n && box == Box(cfg, row, col)
      requires h0 == Head(cfg, Cand(cfg, row, col, 0)) && Partial(cfg, Snapshot(), h0)
      modifies this
      ensures h == Head(cfg, Cand(cfg, row, col + 1, 0)) && Partial(cfg, Snapshot(), h)
      ensures choices == old(choices) && numSols == old(numSols) && trail == old(trail)
    {
      h := h0;
      for num := 0 to cfg.n
        invariant h == h0 + 5 * num && Partial(cfg, Snapshot(), h)
        invariant choices == old(choices) && numSols == old(numSols) && trail == old(trail)
      {
        h := AddCandidate(row, col, box, num, h);
      }
      CandNext(cfg, row, col);
    }

    /** One pass of the digit loop of initialize_matrix: the Candidate (row, col, num) and its four Nodes. */
    method AddCandidate(row: int, col: int, box: int, num: int, h0: int) returns (h: int)
      requires cfg.Valid() && 0 <= row < cfg.n && 0 <= col < cfg.n && 0 <= num < cfg.n && box == Box(cfg, row, col)
      requires h0 == Head(cfg, Cand(cfg, row, col, num)) && Partial(cfg, Snapshot(), h0)
      modifies this
      ensures h == h0 + 5 && Partial(cfg, Snapshot(), h)
      ensures choices == old(choices) && numSols == old(numSols) && trail == old(trail)
    {
      CandidateBuilt(cfg, Snapshot(), row, col, box, num, h0);
      NewCandidate(row, col, box, num, h0);
      h := h0 + 5;
    }

    /**
     * Candidate.__init__: look up the four Constraints of (row, col, box, num),
     * link the head in at the bottom of the Root's column, then create a Node
     * under each Constraint and append it to the head's row.
     */
    method NewCandidate(row: int, col: int, box: int, num: int, h: int)
      requires Shaped(cfg, Snapshot()) && 0 <= row < cfg.n && 0 <= col < cfg.n && 0 <= num < cfg.n && box == Box(cfg, row, col)
      requires h == Head(cfg, Cand(cfg, row, col, num))
      modifies this
      ensures Snapshot() == CandidateF(cfg, old(Snapshot()), row, col, box, num, h)
      ensures choices == old(choices) && numSols == old(numSols) && trail == old(trail)
    {
      var intersections := IntersectionsOf(cfg, row, col, box, num);
      CandidateFits(cfg, row, col, box, num, h);
      LinkHead(h);
      ghost var t := Snapshot();
      var newNode := h + 1;
      for f := 0 to 4
        invariant newNode == h + 1 + f && Snapshot() == NodesF(cfg, t, h, intersections, f)
        invariant choices == old(choices) && numSols == old(numSols) && trail == old(trail)
      {
        NodesFStep(cfg, t, h, intersections, f);
        NewNode(h, newNode, intersections[f]);
        newNode := newNode + 1;
      }
    }

    /** The part of Candidate.__init__ that links head h in at the bottom of the Root's column. */
    method LinkHead(h: int)
      requires Shaped(cfg, Snapshot()) && IsNode(cfg, h)
      modifies this
      ensures Snapshot() == HeadF(cfg, old(Snapshot()), h)
      ensures choices == old(choices) && numSols == old(numSols) && trail == old(trail)
    {
      ArenaBounds(cfg);
      var prev := up[0];
      up := up[0 := h];
      down := down[prev := h];
      up := up[h := prev];
      down := down[h := 0];
      left := left[h := h];
      linked := linked + {h};
    }

    /**
     * Node.__init__ for Node x under Constraint k, then the linking in
     * Candidate.__init__ that appends x at the left end of head h's row.
     */
    method NewNode(h: int, x: int, k: int)
      requires Shaped(cfg, Snapshot()) && IsNode(cfg, h) && IsNode(cfg, x) && IsHeader(cfg, k)
      modifies this
      ensures Snapshot() == NodeF(cfg, old(Snapshot()), h, x, k)
      ensures choices == old(choices) && numSols == old(numSols) && trail == old(trail)
    {
      ArenaBounds(cfg);
      var upNode := up[k];
      down := down[x := k];
      up := up[k := x];
      up := up[x := upNode];
      down := down[upNode := x];
      var leftNode := left[h];
      left := left[x := leftNode];
      right := right[leftNode := x];
      left := left[h := x];
      right := right[x := h];
      linked := linked + {x};
    }

    /** The while loop of set_grid: backtrack until no choice is left, back to the state before the first. */
    method BacktrackAll()
      requires Valid()
      modifies this
      ensures Valid() && numSols == old(numSols)
      ensures choices == [] && trail == [] && Snapshot() == old(Base(trail, Snapshot()))
    {
      while choices != []
        invariant Valid() && numSols == old(numSols)
        invariant Base(trail, Snapshot()) == old(Base(trail, Snapshot()))
        decreases |choices|
      {
        var _ := Backtrack();
      }
    }

    /**
     * SudokuMatrix.add_filled_cell: read the cell's digit; 0 leaves the matrix
     * alone, a digit outside 1 .. n raises CellViolation, text that is not a
     * number a ValueError, and a digit d chooses the Candidate for d there.
     */
    method AddFilledCell(row: int, col: int, digit: Entry) returns (err: Option<Exception>)
      requires Valid()
      requires CellTarget(cfg, row, col, digit).Given? ==>
        AllOpen(Snapshot(), ConsList(cfg, CellTarget(cfg, row, col, digit).cand))
      modifies this
      ensures Valid() && numSols == old(numSols)
      ensures CellTarget(cfg, row, col, digit).Given? ==> var c := CellTarget(cfg, row, col, digit).cand;
        && err == None && Snapshot() == ChooseF(cfg, old(Snapshot()), c)
        && choices == old(choices) + [ChoiceOf(cfg, c)] && trail == old(trail) + [old(Snapshot())]
      ensures CellTarget(cfg, row, col, digit).Empty? ==> err == None
      ensures CellTarget(cfg, row, col, digit).Fail? ==> err == Some(CellTarget(cfg, row, col, digit).error)
      ensures !CellTarget(cfg, row, col, digit).Given? ==>
        Snapshot() == old(Snapshot()) && choices == old(choices) && trail == old(trail)
    {
      var d := CellDigit(cfg, digit);
      if d.None? {
        return Some(ValueError);
      }
      if d.value == 0 {
        return None;
      }
      if d.value < 0 || d.value > cfg.n {
        return Some(CellViolation(row, col, d.value));
      }
      var num := d.value - 1;
      var i := row * cfg.n * cfg.n + col * cfg.n + num;
      var total := cfg.NumCandidates();
      if i < -total || total <= i {
        return Some(IndexError);
      }
      var x := if i < 0 then i + total else i;
      Choose(x);
      return None;
    }

    /**
     * SudokuMatrix.set_grid: insist on n^2 cells, backtrack every earlier
     * choice, then add the cells row by row. The choices it leaves and the
     * exception it ends with are those of Load; the state before the first
     * choice is the one it started from.
     */
    method SetGrid(es: seq<Entry>) returns (err: Option<Exception>)
      requires Valid() && Consistent(cfg, es)
      modifies this
      ensures Valid() && numSols == old(numSols)
      ensures |es| != cfg.Cells() ==>
        err == Some(AssertionError) && Snapshot() == old(Snapshot()) && choices == old(choices) && trail == old(trail)
      ensures |es| == cfg.Cells() ==>
        Load(cfg, es, |es|) == Loaded(choices, err) && Base(trail, Snapshot()) == old(Base(trail, Snapshot()))
    {
      if |es| != cfg.Cells() {
        return Some(AssertionError);
      }
      BacktrackAll();
      err := None;
      ghost var k := 0;
      for row := 0 to cfg.n
        invariant k == row * cfg.n && 0 <= k <= |es|
        invariant Valid() && numSols == old(numSols) && Base(trail, Snapshot()) == old(Base(trail, Snapshot()))
        invariant Load(cfg, es, k) == Loaded(choices, None) && err == None
      {
        RowBounds(cfg, row);
        err := FillRow(es, row, k);
        if err.Some? {
          return;
        }
        k := k + cfg.n;
        assert (row + 1) * cfg.n == row * cfg.n + cfg.n;
      }
    }

    /** The inner loop of set_grid: the cells of row row, which start at flat index k, left to right. */
    method FillRow(es: seq<Entry>, row: int, ghost k: int) returns (err: Option<Exception>)
      requires Valid() && Consistent(cfg, es) && |es| == cfg.Cells() && 0 <= row < cfg.n
      requires k == row * cfg.n && 0 <= k && k + cfg.n <= |es|
      requires Load(cfg, es, k) == Loaded(choices, None)
      modifies this
      ensures Valid() && numSols == old(numSols) && Base(trail, Snapshot()) == old(Base(trail, Snapshot()))
      ensures err.None? ==> Load(cfg, es, k + cfg.n) == Loaded(choices, None)
      ensures err.Some? ==> Load(cfg, es, |es|) == Loaded(choices, err)
    {
      err := None;
      for col := 0 to cfg.n
        invariant Valid() && numSols == old(numSols) && Base(trail, Snapshot()) == old(Base(trail, Snapshot()))
        invariant Load(cfg, es, k + col) == Loaded(choices, None) && err == None
      {
        err := FillCell(es, row, col, k + col);
        if err.Some? {
          return;
        }
      }
    }

    /**
     * One turn of set_grid's loop: add cell (row, col), catching a
     * CellViolation; the outcome is the next step of Load.
     */
    method FillCell(es: seq<Entry>, row: int, col: int, ghost k: int) returns (err: Option<Exception>)
      requires Valid() && Consistent(cfg, es) && |es| == cfg.Cells()
      requires 0 <= row < cfg.n && 0 <= col < cfg.n && k == row * cfg.n + col && 0 <= k < |es|
      requires Load(cfg, es, k) == Loaded(choices, None)
      modifies this
      ensures Valid() && numSols == old(numSols) && Base(trail, Snapshot()) == old(Base(trail, Snapshot()))
      ensures Load(cfg, es, k + 1) == Loaded(choices, err)
      ensures err.Some? ==> Load(cfg, es, |es|) == Loaded(choices, err)
    {
      LoadFollowsCell(cfg, es, row, col, k);
      ghost var t := CellTarget(cfg, row, col, es[k]);
      if t.Given? {
        GivenFresh(cfg, es, row, col, k, t.cand);
        BaseGood(cfg, trail, choices, Snapshot());
        FreshOpen(cfg, trail, choices, Snapshot(), t.cand);
        ChainPush(cfg, trail, choices, Snapshot(), t.cand);
      }
      err := AddFilledCell(row, col, es[row * cfg.n + col]);
      if err.Some? && err.value.CellViolation? {
        err := None;
      }
      if err.Some? {
        LoadStops(cfg, es, k + 1, |es|);
      }
    }

    /**
     * Whether solve goes past its base cases: solutions are still wanted, some
     * Constraint is open, and every open Constraint still has a Node under it.
     */
    ghost predicate Branching()
      reads this
    {
      && numSols > 0 && |right| > 0 && right[0] != 0
      && forall k :: IsHeader(cfg, k) && k < |size| && k < |covered| && !covered[k] ==> size[k] > 0
    }

    /**
     * SudokuMatrix.solve: Algorithm X. The texts it appends are pairwise
     * different full solutions keeping the choices it started from, each one
     * counted off numSols; and unless numSols ran out, every such solution is
     * among them. A call below the top pops exactly its caller's choice; a
     * call at the top that branches leaves the choices as they were; a call
     * that ends in a base case backtracks once, which fails (the IndexError
     * of the source) only when there is no choice to pop.
     */
    method Solve(sols: seq<string>, depth: int) returns (out: seq<string>, ok: bool)
      requires Valid() && depth >= 0 && (depth > 0 ==> choices != [])
      modifies this
      decreases |Uncovered(cfg, covered)|, 4
      ensures Valid()
      ensures |sols| <= |out| && out[..|sols|] == sols && numSols == old(numSols) - (|out| - |sols|)
      ensures SolutionsFrom(cfg, out, |sols|, old(choices)) && Unique(out, |sols|)
      ensures numSols > 0 ==> AllFound(cfg, out, |sols|, old(choices))
      ensures old(numSols) <= 0 ==> out == sols
      ensures old(numSols) > 0 && old(right[0]) == 0 ==> |out| == |sols| + 1 && Shows(cfg, out[|sols|], old(choices))
      ensures old(numSols) > 0 && old(right[0]) != 0 && !old(Branching()) ==> out == sols
      ensures old(numSols) >= 0 ==> numSols >= 0
      ensures !ok ==> out == sols
      ensures depth == 0 && old(Branching()) ==>
        ok && Snapshot() == old(Snapshot()) && choices == old(choices) && trail == old(trail)
      ensures depth > 0 || !old(Branching()) ==> (ok <==> old(choices) != [])
      ensures (depth > 0 || !old(Branching())) && !ok ==>
        Snapshot() == old(Snapshot()) && choices == old(choices) && trail == old(trail)
      ensures (depth > 0 || !old(Branching())) && ok ==> var k := |old(choices)| - 1;
        && choices == old(choices)[..k] && trail == old(trail)[..k] && Snapshot() == old(trail)[k]
    {
      if numSols <= 0 {
        ok := Backtrack();
        out := sols;
        return;
      }
      if right[0] == 0 {
        out, ok := SolutionFound(sols);
        return;
      }
      out, ok := Explore(sols, depth);
    }

    /**
     * The rest of solve once solutions are still wanted and some Constraint
     * is open: take the Constraint chosen_constraint names, backtrack when it
     * has no Node left, and otherwise try each of its Nodes in turn.
     */
    method Explore(sols: seq<string>, depth: int) returns (out: seq<string>, ok: bool)
      requires Valid() && depth >= 0 && (depth > 0 ==> choices != [])
      requires numSols > 0 && right[0] != 0
      modifies this
      decreases |Uncovered(cfg, covered)|, 3
      ensures Valid()
      ensures |sols| <= |out| && out[..|sols|] == sols && numSols == old(numSols) - (|out| - |sols|)
      ensures SolutionsFrom(cfg, out, |sols|, old(choices)) && Unique(out, |sols|)
      ensures numSols > 0 ==> AllFound(cfg, out, |sols|, old(choices))
      ensures !old(Branching()) ==> out == sols
      ensures numSols >= 0 && (!ok ==> out == sols)
      ensures depth == 0 && old(Branching()) ==>
        ok && Snapshot() == old(Snapshot()) && choices == old(choices) && trail == old(trail)
      ensures depth > 0 || !old(Branching()) ==> (ok <==> old(choices) != [])
      ensures (depth > 0 || !old(Branching())) && !ok ==>
        Snapshot() == old(Snapshot()) && choices == old(choices) && trail == old(trail)
      ensures (depth > 0 || !old(Branching())) && ok ==> var k := |old(choices)| - 1;
        && choices == old(choices)[..k] && trail == old(trail)[..k] && Snapshot() == old(trail)[k]
    {
      var sel := ChosenConstraint();
      if size[sel] <= 0 {
        StuckNone(cfg, trail, choices, Snapshot(), sel);
        ok := Backtrack();
        out := sols;
        return;
      }
      out := TryColumn(sel, sols, depth);
      if depth > 0 {
        ok := Backtrack();
      } else {
        ok := true;
      }
    }

    /**
     * The loop of solve: choose the Candidate of each Node under Constraint
     * sel in turn, top to bottom, and explore it one level deeper. The
     * branches find different solutions, and together all of them.
     */
    method TryColumn(sel: int, sols: seq<string>, depth: int) returns (out: seq<string>)
      requires Valid() && IsHeader(cfg, sel) && !covered[sel] && depth >= 0
      modifies this
      decreases |Uncovered(cfg, covered)|, 2
      ensures Valid() && Snapshot() == old(Snapshot()) && choices == old(choices) && trail == old(trail)
      ensures |sols| <= |out| && out[..|sols|] == sols && numSols == old(numSols) - (|out| - |sols|)
      ensures SolutionsFrom(cfg, out, |sols|, choices) && Unique(out, |sols|)
      ensures numSols > 0 ==> AllFound(cfg, out, |sols|, choices)
      ensures old(numSols) >= 0 ==> numSols >= 0
    {
      ghost var s0 := Snapshot();
      out := sols;
      ghost var F := Filter(Members(cfg, sel), linked);
      ColumnWalk(cfg, s0, sel, F, 0);
      ColumnCandsOf(cfg, s0, sel);
      var node := down[sel];
      ghost var i := 0;
      while node != sel
        invariant Valid() && Snapshot() == s0 && choices == old(choices) && trail == old(trail)
        invariant 0 <= i <= |F| && node == if i < |F| then F[i] else sel
        invariant |sols| <= |out| && out[..|sols|] == sols && numSols == old(numSols) - (|out| - |sols|)
        invariant Swept(cfg, out, |sols|, choices, F, i, numSols > 0)
        invariant old(numSols) >= 0 ==> numSols >= 0
        decreases |F| - i
      {
        ghost var before := numSols;
        var more;
        more, node := TryNode(sel, node, F, i, out, depth);
        SweepStep(cfg, choices, F, sel, i, |sols|, out, more, before > 0, numSols > 0);
        out := more;
        i := i + 1;
      }
      TaggedSolutions(cfg, out, |sols|, choices, F, i);
      if numSols > 0 {
        BranchesFound(cfg, trail, choices, s0, sel, F, out, |sols|);
      }
    }

    /**
     * One turn of solve's loop: choose the Candidate of the i-th Node F[i]
     * under sel, explore it one level deeper, which unchooses it again, and
     * step down to the next Node.
     */
    method TryNode(sel: int, node: int, ghost F: seq<int>, ghost i: int, sols: seq<string>, depth: int)
      returns (out: seq<string>, next: int)
      requires Valid() && IsHeader(cfg, sel) && !covered[sel] && depth >= 0
      requires F == Filter(Members(cfg, sel), linked) && 0 <= i < |F| && node == F[i]
      modifies this
      decreases |Uncovered(cfg, covered)|, 1
      ensures Valid() && Snapshot() == old(Snapshot()) && choices == old(choices) && trail == old(trail)
      ensures |sols| <= |out| && out[..|sols|] == sols && numSols == old(numSols) - (|out| - |sols|)
      ensures SolutionsFrom(cfg, out, |sols|, Branch(cfg, choices, F, i)) && Unique(out, |sols|)
      ensures numSols > 0 ==> AllFound(cfg, out, |sols|, Branch(cfg, choices, F, i))
      ensures next == if i + 1 < |F| then F[i + 1] else sel
      ensures old(numSols) >= 0 ==> numSols >= 0
    {
      ColumnWalk(cfg, Snapshot(), sel, F, i);
      ColumnWalk(cfg, Snapshot(), sel, F, i + 1);
      next := down[node];
      out := Descend(CandOf(cfg, node), sols, depth);
    }

    /**
     * The recursion of solve: choose cand, solve one level deeper, which
     * unchooses it again, and find the solutions that keep cand.
     */
    method Descend(cand: int, sols: seq<string>, depth: int) returns (out: seq<string>)
      requires Valid() && 0 <= cand < cfg.NumCandidates() && AllOpen(Snapshot(), ConsList(cfg, cand)) && depth >= 0
      modifies this
      decreases |Uncovered(cfg, covered)|, 0
      ensures Valid() && Snapshot() == old(Snapshot()) && choices == old(choices) && trail == old(trail)
      ensures |sols| <= |out| && out[..|sols|] == sols && numSols == old(numSols) - (|out| - |sols|)
      ensures SolutionsFrom(cfg, out, |sols|, choices + [ChoiceOf(cfg, cand)]) && Unique(out, |sols|)
      ensures numSols > 0 ==> AllFound(cfg, out, |sols|, choices + [ChoiceOf(cfg, cand)])
      ensures old(numSols) >= 0 ==> numSols >= 0
    {
      ChooseShrinks(cfg, Snapshot(), cand);
      Choose(cand);
      var ok;
      out, ok := Solve(sols, depth + 1);
    }

    /**
     * SudokuMatrix.__solution_found: count the solution, record the grid text
     * of the current choices, and backtrack. Reached when the header ring is
     * empty, the text is the one full solution keeping the choices.
     */
    method SolutionFound(sols: seq<string>) returns (out: seq<string>, ok: bool)
      requires Valid()
      modifies this
      ensures Valid() && numSols == old(numSols) - 1
      ensures |out| == |sols| + 1 && out[..|sols|] == sols && Shows(cfg, out[|sols|], old(choices))
      ensures old(right[0]) == 0 ==>
        SolutionsFrom(cfg, out, |sols|, old(choices)) && AllFound(cfg, out, |sols|, old(choices)) && old(choices) != []
      ensures ok <==> old(choices) != []
      ensures !ok ==> Snapshot() == old(Snapshot()) && choices == old(choices) && trail == old(trail)
      ensures ok ==> var k := |old(choices)| - 1;
        && choices == old(choices)[..k] && trail == old(trail)[..k] && Snapshot() == old(trail)[k]
    {
      ghost var s0 := Snapshot();
      out := RecordSolution(sols);
      assert Snapshot() == s0;
      ok := Backtrack();
    }

    /** The first two steps of __solution_found: count the solution off and append the grid text. */
    method RecordSolution(sols: seq<string>) returns (out: seq<string>)
      requires Valid()
      modifies this`numSols
      ensures Valid() && numSols == old(numSols) - 1
      ensures |out| == |sols| + 1 && out[..|sols|] == sols && Shows(cfg, out[|sols|], choices)
      ensures right[0] == 0 ==> SolutionsFrom(cfg, out, |sols|, choices) && AllFound(cfg, out, |sols|, choices) && choices != []
    {
      numSols := numSols - 1;
      BaseGood(cfg, trail, choices, Snapshot());
      ChainPlaced(cfg, trail, choices, Snapshot());
      var g := GetString();
      out := sols + [g];
      if right[0] == 0 {
        EmptyRingCover(cfg, trail, choices, Snapshot());
        assert Placed(cfg, choices) && ExactCover(cfg, choices) && Keeps(choices, choices) && Shows(cfg, g, choices);
        SolutionsOne(cfg, sols, g, choices);
        CoverFound(cfg, g, choices);
        CoverNonEmpty(cfg, choices);
        assert out[|sols|..] == [g];
      }
    }

    /**
     * SudokuMatrix.chosen_constraint: the first Constraint of least size in the
     * header ring, which lists the open Constraints in increasing order.
     */
    method ChosenConstraint() returns (sel: int)
      requires Shaped(cfg, Snapshot()) && Ring(left, right, HeaderRing(cfg, Snapshot())) && right[0] != 0
      ensures IsHeader(cfg, sel) && !covered[sel]
      ensures forall k :: IsHeader(cfg, k) && !covered[k] ==> size[sel] <= size[k]
      ensures forall k :: IsHeader(cfg, k) && !covered[k] && k < sel ==> size[sel] < size[k]
    {
      ghost var U := Filter(HeaderSeq(cfg), Uncovered(cfg, covered));
      HeaderWalk(cfg, Snapshot(), U);
      ghost var si;
      sel, si := ScanHeaders(U);
      forall h | IsHeader(cfg, h) && !covered[h]
        ensures size[sel] <= size[h] && (h < sel ==> size[sel] < size[h])
      {
        var j :| 0 <= j < |U| && U[j] == h;
      }
    }

    /**
     * The loop of chosen_constraint: follow right links from the Root through
     * the headers U and keep the first of least size. Until found is set the
     * bound is the source's float('inf'), which every size is below.
     */
    method ScanHeaders(ghost U: seq<int>) returns (sel: int, ghost si: int)
      requires |U| > 0 && |size| == cfg.NumHeaders() + 1 && |right| > cfg.NumHeaders()
      requires forall p :: 0 <= p < |U| ==> 1 <= U[p] <= cfg.NumHeaders()
      requires right[0] == U[0]
      requires forall p :: 0 <= p < |U| ==> right[U[p]] == if p + 1 < |U| then U[p + 1] else 0
      ensures 0 <= si < |U| && sel == U[si]
      ensures forall j :: 0 <= j < |U| ==> size[sel] <= size[U[j]]
      ensures forall j :: 0 <= j < si ==> size[sel] < size[U[j]]
    {
      var k := right[0];
      var best := 0;
      var found := false;
      sel := 0;
      si := 0;
      ghost var i := 0;
      while k != 0
        invariant 0 <= i <= |U| && k == if i < |U| then U[i] else 0
        invariant found <==> i > 0
        invariant 0 <= si <= i && 0 <= sel < |size|
        invariant found ==> si < i && sel == U[si] && best == size[sel]
        invariant forall j :: 0 <= j < i ==> size[sel] <= size[U[j]]
        invariant forall j :: 0 <= j < si ==> size[sel] < size[U[j]]
        decreases |U| - i
      {
        if !found || size[k] < best {
          sel := k;
          best := size[k];
          found := true;
          si := i;
        }
        assert size[sel] <= size[U[i]];
        k := right[k];
        i := i + 1;
      }
    }

    /**
     * SudokuMatrix.get_string: the grid as n^2 symbols, row by row, showing
     * each chosen digit at its location and '0' in every other cell.
     */
    method GetString() returns (g: string)
      requires cfg.Valid() && Placed(cfg, choices)
      ensures Shows(cfg, g, choices)
    {
      var cs := SortByLocation(choices);
      PlacedOnGrid(cfg, choices);
      assert forall j :: 0 <= j < |cs| ==> cs[j] in multiset(choices);
      g := Render(cs);
      ShowsReordered(cfg, g, cs, choices);
    }

    /** The loops of get_string over the choices sorted by location. */
    method Render(cs: seq<Choice>) returns (g: string)
      requires cfg.Valid() && Ascending(cs)
      requires forall j :: 0 <= j < |cs| ==> 0 <= cs[j].location < cfg.Cells()
      ensures Shows(cfg, g, cs)
    {
      g := "";
      var loc := 0;
      var next := 0;
      for row := 0 to cfg.n
        invariant loc == row * cfg.n
        invariant |g| == loc && 0 <= next <= |cs|
        invariant forall j :: 0 <= j < next ==> cs[j].location < loc && g[cs[j].location] == Symbol(cfg, cs[j].cand)
        invariant forall j :: next <= j < |cs| ==> loc <= cs[j].location
        invariant forall i :: 0 <= i < loc && (forall j :: 0 <= j < |cs| ==> cs[j].location != i) ==> g[i] == '0'
      {
        for col := 0 to cfg.n
          invariant loc == row * cfg.n + col
          invariant |g| == loc && 0 <= next <= |cs|
          invariant forall j :: 0 <= j < next ==> cs[j].location < loc && g[cs[j].location] == Symbol(cfg, cs[j].cand)
          invariant forall j :: next <= j < |cs| ==> loc <= cs[j].location
          invariant forall i :: 0 <= i < loc && (forall j :: 0 <= j < |cs| ==> cs[j].location != i) ==> g[i] == '0'
        {
          if next < |cs| && loc == cs[next].location {
            g := g + [DIGITS[CandNum(cfg, cs[next].cand)]];
            next := next + 1;
          } else {
            g := g + "0";
          }
          loc := loc + 1;
        }
        assert (row + 1) * cfg.n == row * cfg.n + cfg.n;
      }
    }
  }
}
