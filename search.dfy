/**
 * What SudokuMatrix.solve relies on and what it finds: the Nodes met walking
 * down the chosen column belong to Candidates that can be chosen, the chosen
 * Candidates always obey the rules of Sudoku, and an empty header ring means
 * they cover every Constraint exactly once, so that every cell is filled.
 */
module Search {
  import opened Layout
  import opened Rings
  import opened Dance
  import opened History
  import opened Grid

  /** Every Constraint is covered by exactly one of the chosen Candidates. */
  ghost predicate ExactCover(cfg: Config, cs: seq<Choice>)
    requires cfg.Valid()
  {
    Disjoint(cfg, cs) && CoveredBy(cfg, cs) == AllHeaderSet(cfg)
  }

  /** Every entry of prefix is an entry of cs. */
  predicate Keeps(prefix: seq<Choice>, cs: seq<Choice>)
  {
    forall x :: x in prefix ==> x in cs
  }

  /**
   * g is the text of a full solution that keeps the entries of prefix: an
   * exact cover by Candidates in distinct cells, holding every entry of
   * prefix, shown as g.
   */
  ghost predicate Solution(cfg: Config, g: string, prefix: seq<Choice>)
    requires cfg.Valid()
  {
    exists cs :: Placed(cfg, cs) && ExactCover(cfg, cs) && Keeps(prefix, cs) && Shows(cfg, g, cs)
  }

  /** Every text of gs from index lo on is a solution extending prefix. */
  ghost predicate SolutionsFrom(cfg: Config, gs: seq<string>, lo: int, prefix: seq<Choice>)
    requires cfg.Valid()
  {
    forall m :: 0 <= lo <= m < |gs| ==> Solution(cfg, gs[m], prefix)
  }

  /** Appending one solution to a list of texts. */
  lemma SolutionsOne(cfg: Config, gs: seq<string>, g: string, prefix: seq<Choice>)
    requires cfg.Valid() && Solution(cfg, g, prefix)
    ensures SolutionsFrom(cfg, gs + [g], |gs|, prefix)
  {
    assert (gs + [g])[|gs|] == g;
  }

  /** Solutions found before and after a point of the list join up. */
  lemma SolutionsJoin(cfg: Config, a: seq<string>, b: seq<string>, lo: int, prefix: seq<Choice>)
    requires cfg.Valid() && 0 <= lo <= |a| <= |b| && b[..|a|] == a
    requires SolutionsFrom(cfg, a, lo, prefix) && SolutionsFrom(cfg, b, |a|, prefix)
    ensures SolutionsFrom(cfg, b, lo, prefix)
  {
    forall m | lo <= m < |b|
      ensures Solution(cfg, b[m], prefix)
    {
      if m < |a| {
        assert b[..|a|][m] == b[m];
      }
    }
  }

  /** A solution extending a list of entries extends every prefix of it. */
  lemma SolutionWeaken(cfg: Config, g: string, p: seq<Choice>, q: seq<Choice>)
    requires cfg.Valid() && p <= q && Solution(cfg, g, q)
    ensures Solution(cfg, g, p)
  {
    var cs: seq<Choice> :| Placed(cfg, cs) && ExactCover(cfg, cs) && Keeps(q, cs) && Shows(cfg, g, cs);
    forall x | x in p
      ensures x in cs
    {
      var i :| 0 <= i < |p| && p[i] == x;
      assert q[i] == x;
    }
  }

  /**
   * The walk of solve down the open column sel: the down links lead from the
   * header through the linked members F in order and back, and each member
   * belongs to a Candidate whose four Constraints are all open.
   */
  lemma ColumnWalk(cfg: Config, s: Dlx, sel: int, F: seq<int>, i: int)
    requires Good(cfg, s) && IsHeader(cfg, sel) && !s.covered[sel]
    requires F == Filter(Members(cfg, sel), s.linked) && 0 <= i <= |F|
    ensures forall p :: 0 <= p < |F| ==> IsNode(cfg, F[p])
    ensures s.down[if i == 0 then sel else F[i - 1]] == if i < |F| then F[i] else sel
    ensures i < |F| ==> F[i] != sel
    ensures i < |F| ==> 0 <= CandOf(cfg, F[i]) < cfg.NumCandidates() && AllOpen(s, ConsList(cfg, CandOf(cfg, F[i])))
  {
    assert Ring(s.up, s.down, Column(cfg, sel, s.linked));
    RingWalk(s.up, s.down, sel, F, i);
    FilterMember(Members(cfg, sel), s.linked);
    if i < |F| {
      ColumnMemberOpen(cfg, s, sel, F[i]);
    }
  }

  /** A member linked into an open column is a Node of an available Candidate. */
  lemma ColumnMemberOpen(cfg: Config, s: Dlx, sel: int, y: int)
    requires Good(cfg, s) && IsHeader(cfg, sel) && !s.covered[sel]
    requires y in Members(cfg, sel) && y in s.linked
    ensures IsNode(cfg, y) && y != sel
    ensures 0 <= CandOf(cfg, y) < cfg.NumCandidates() && AllOpen(s, ConsList(cfg, CandOf(cfg, y)))
  {
    var m :| 0 <= m < |Members(cfg, sel)| && Members(cfg, sel)[m] == y;
    MembersInColumn(cfg, sel, m);
    SlotDecode(cfg, y);
    assert Alive(cfg, s, CandOf(cfg, y));
    AliveAllOpen(cfg, s, CandOf(cfg, y));
  }


  /** The Constraints the entries cover are headers. */
  lemma {:induction false} CoveredByHeaders(cfg: Config, cs: seq<Choice>)
    requires cfg.Valid() && forall j :: 0 <= j < |cs| ==> 0 <= cs[j].cand < cfg.NumCandidates()
    ensures forall h :: h in CoveredBy(cfg, cs) ==> IsHeader(cfg, h)
    decreases |cs|
  {
    if |cs| > 0 {
      var k := |cs| - 1;
      CoveredByHeaders(cfg, cs[..k]);
      ConsListProps(cfg, cs[k].cand);
      ElemsMember(ConsList(cfg, cs[k].cand));
    }
  }

  /** A covered Constraint is a Constraint of one of the entries. */
  lemma {:induction false} CoveredByWitness(cfg: Config, cs: seq<Choice>, h: int) returns (j: int)
    requires cfg.Valid() && h in CoveredBy(cfg, cs)
    ensures 0 <= j < |cs| && h in ConsList(cfg, cs[j].cand)
    decreases |cs|
  {
    var k := |cs| - 1;
    ElemsMember(ConsList(cfg, cs[k].cand));
    if h in Elems(ConsList(cfg, cs[k].cand)) {
      j := k;
    } else {
      j := CoveredByWitness(cfg, cs[..k], h);
      assert cs[..k][j] == cs[j];
    }
  }

  /**
   * When the Root's right link returns to the Root every Constraint has been
   * covered, each by exactly one chosen Candidate.
   */
  lemma EmptyRingCover(cfg: Config, trail: seq<Dlx>, choices: seq<Choice>, cur: Dlx)
    requires Chain(cfg, trail, choices, cur) && Good(cfg, cur) && Good(cfg, Base(trail, cur))
    requires Uncovered(cfg, Base(trail, cur).covered) == AllHeaderSet(cfg)
    requires cur.right[0] == 0
    ensures ExactCover(cfg, choices)
  {
    ChainUncovered(cfg, trail, choices, cur);
    var U := Filter(HeaderSeq(cfg), Uncovered(cfg, cur.covered));
    HeaderWalk(cfg, cur, U);
    AllHeaderSetMember(cfg);
    forall h | h in AllHeaderSet(cfg)
      ensures h in CoveredBy(cfg, choices)
    {
      OpenUncovered(cfg, cur.covered, h);
    }
    forall j | 0 <= j < |choices|
      ensures 0 <= choices[j].cand < cfg.NumCandidates()
    {
      assert Link(cfg, trail, choices, cur, j);
    }
    CoveredByHeaders(cfg, choices);
    assert CoveredBy(cfg, choices) <= AllHeaderSet(cfg);
  }

  /** Two Candidates whose family-f Constraints have the same index share a Constraint. */
  lemma ShareFamily(cfg: Config, a: int, b: int, f: int)
    requires cfg.Valid() && 0 <= a < cfg.NumCandidates() && 0 <= b < cfg.NumCandidates() && 0 <= f < 4
    requires ConstraintIdx(cfg, f, a) == ConstraintIdx(cfg, f, b)
    ensures !(Elems(ConsList(cfg, a)) !! Elems(ConsList(cfg, b)))
  {
    ConsListProps(cfg, a);
    ConsListProps(cfg, b);
    ElemsMember(ConsList(cfg, a));
    ElemsMember(ConsList(cfg, b));
    assert ConsList(cfg, a)[f] in ConsList(cfg, a) && ConsList(cfg, b)[f] in ConsList(cfg, b);
  }

  /**
   * The chosen Candidates obey the rules of Sudoku: two of them never share a
   * cell, and when they share a row, a column or a box their digits differ.
   */
  lemma ChosenObeyRules(cfg: Config, cs: seq<Choice>, i: int, j: int)
    requires cfg.Valid() && Placed(cfg, cs) && Disjoint(cfg, cs) && 0 <= i < j < |cs|
    ensures cs[i].location != cs[j].location
    ensures var a, b := cs[i].cand, cs[j].cand;
      && (CandRow(cfg, a) == CandRow(cfg, b) ==> CandNum(cfg, a) != CandNum(cfg, b))
      && (CandCol(cfg, a) == CandCol(cfg, b) ==> CandNum(cfg, a) != CandNum(cfg, b))
      && (Box(cfg, CandRow(cfg, a), CandCol(cfg, a)) == Box(cfg, CandRow(cfg, b), CandCol(cfg, b)) ==> CandNum(cfg, a) != CandNum(cfg, b))
  {
    var a, b := cs[i].cand, cs[j].cand;
    DisjointPairs(cfg, cs, i, j);
    if CandNum(cfg, a) == CandNum(cfg, b) {
      if CandRow(cfg, a) == CandRow(cfg, b) {
        ShareFamily(cfg, a, b, ROW);
      }
      if CandCol(cfg, a) == CandCol(cfg, b) {
        ShareFamily(cfg, a, b, COL);
      }
      if Box(cfg, CandRow(cfg, a), CandCol(cfg, a)) == Box(cfg, CandRow(cfg, b), CandCol(cfg, b)) {
        ShareFamily(cfg, a, b, BOX);
      }
    }
  }

  /** In an exact cover every cell of the grid holds one chosen Candidate. */
  lemma ExactCoverFills(cfg: Config, cs: seq<Choice>, loc: int) returns (j: int)
    requires cfg.Valid() && Placed(cfg, cs) && ExactCover(cfg, cs) && 0 <= loc < cfg.Cells()
    ensures 0 <= j < |cs| && cs[j].location == loc
  {
    var h := Header(CEL, loc);
    HeaderRoundTrip(cfg, CEL, loc);
    AllHeaderSetMember(cfg);
    j := CoveredByWitness(cfg, cs, h);
    var c := cs[j].cand;
    assert 0 <= c < cfg.NumCandidates() && cs[j] == ChoiceOf(cfg, c);
    ConsListProps(cfg, c);
    var f :| 0 <= f < 4 && ConsList(cfg, c)[f] == h;
    ConsOfProps(cfg, c, f);
    assert f == CEL;
    CandDecode(cfg, c);
    HeaderRoundTrip(cfg, CEL, CandLoc(cfg, c));
  }

  /**
   * A solution's text fills every cell with a digit symbol and keeps the
   * symbol of every entry of the prefix it extends.
   */
  lemma SolutionFilled(cfg: Config, g: string, prefix: seq<Choice>)
    requires cfg.Valid() && Solution(cfg, g, prefix)
    ensures |g| == cfg.Cells()
    ensures forall i :: 0 <= i < |g| ==> g[i] != '0'
    ensures forall j :: 0 <= j < |prefix| ==> 0 <= prefix[j].location < |g| && g[prefix[j].location] == Symbol(cfg, prefix[j].cand)
  {
    var cs: seq<Choice> :| Placed(cfg, cs) && ExactCover(cfg, cs) && Keeps(prefix, cs) && Shows(cfg, g, cs);
    forall i | 0 <= i < |g|
      ensures g[i] != '0'
    {
      var j := ExactCoverFills(cfg, cs, i);
      ZeroIsNoSymbol(cfg, cs[j].cand);
    }
    forall j | 0 <= j < |prefix|
      ensures 0 <= prefix[j].location < |g| && g[prefix[j].location] == Symbol(cfg, prefix[j].cand)
    {
      assert prefix[j] in cs;
      var k :| 0 <= k < |cs| && cs[k] == prefix[j];
    }
  }
}
