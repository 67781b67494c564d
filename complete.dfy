/**
 * Why SudokuMatrix.solve misses no solution and finds none twice. Every
 * Candidate whose four Constraints are open stays linked in whole, so the
 * Candidate a solution uses for the chosen Constraint is met on the walk down
 * that Constraint's column; a solution's text names its Candidates, so two
 * Nodes of that walk never lead to the same text; and a full grid of givens
 * that obey the rules is already an exact cover.
 */
module Completeness {
  import opened Layout
  import opened Rings
  import opened Dance
  import opened History
  import opened Grid
  import opened Search
  import opened Givens

  /** Every Candidate whose four Constraints are open is still linked in whole. */
  ghost predicate OpenAlive(cfg: Config, s: Dlx)
    requires cfg.Valid()
  {
    forall c :: 0 <= c < cfg.NumCandidates() && AllOpen(s, ConsList(cfg, c)) ==> Alive(cfg, s, c)
  }

  /** The matrix before any choice: every Constraint open and every Candidate available. */
  ghost predicate Pristine(cfg: Config, s: Dlx)
    requires cfg.Valid()
  {
    && Uncovered(cfg, s.covered) == AllHeaderSet(cfg)
    && forall c :: 0 <= c < cfg.NumCandidates() ==> Alive(cfg, s, c)
  }

  // ---------------------------------------------------------------------------
  // Available Candidates stay linked

  /** Covering an open column c unlinks no Candidate whose Constraints stay open. */
  lemma CoverOpenAlive(cfg: Config, s: Dlx, h: int)
    requires Good(cfg, s) && IsHeader(cfg, h) && !s.covered[h] && OpenAlive(cfg, s)
    ensures OpenAlive(cfg, CoverF(cfg, s, h))
  {
    var t := CoverF(cfg, s, h);
    CoverGood(cfg, s, h);
    ElemsMember(Sweep(cfg, s, h));
    forall c | 0 <= c < cfg.NumCandidates() && AllOpen(t, ConsList(cfg, c))
      ensures Alive(cfg, t, c)
    {
      ConsListProps(cfg, c);
      forall f | 0 <= f < 4
        ensures ConsOf(cfg, c, f) != h && Open(s, ConsOf(cfg, c, f)) && Open(t, ConsOf(cfg, c, f))
      {
        assert Open(t, ConsList(cfg, c)[f]);
      }
      assert AllOpen(s, ConsList(cfg, c));
      forall j | 0 <= j < 5
        ensures Slot(cfg, c, j) in t.linked
      {
        SurvivorUntouched(cfg, s, h, c, j);
      }
    }
  }

  /** Covering the first j Constraints of a Candidate whose Constraints are open keeps OpenAlive. */
  lemma {:induction false} ChoosePrefixOpenAlive(cfg: Config, s: Dlx, c: int, j: int)
    requires Good(cfg, s) && 0 <= c < cfg.NumCandidates() && AllOpen(s, ConsList(cfg, c)) && 0 <= j <= 4
    requires OpenAlive(cfg, s)
    ensures AllHeaders(cfg, ConsList(cfg, c)[..j]) && OpenAlive(cfg, CoverList(cfg, s, ConsList(cfg, c)[..j]))
    decreases j
  {
    ChoosePrefix(cfg, s, c, j);
    if j == 0 {
      assert ConsList(cfg, c)[..0] == [];
    } else {
      ChoosePrefixOpenAlive(cfg, s, c, j - 1);
      ChooseStep(cfg, s, c, j - 1);
      CoverOpenAlive(cfg, CoverList(cfg, s, ConsList(cfg, c)[..j - 1]), ConsList(cfg, c)[j - 1]);
    }
  }

  /** Candidate.choose keeps OpenAlive. */
  lemma ChooseOpenAlive(cfg: Config, s: Dlx, c: int)
    requires Good(cfg, s) && 0 <= c < cfg.NumCandidates() && AllOpen(s, ConsList(cfg, c)) && OpenAlive(cfg, s)
    ensures OpenAlive(cfg, ChooseF(cfg, s, c))
  {
    ChoosePrefixOpenAlive(cfg, s, c, 4);
    ChooseAll(cfg, s, c);
  }

  /** OpenAlive holds all along a chain that starts from a state where it holds. */
  lemma {:induction false} ChainOpenAlive(cfg: Config, trail: seq<Dlx>, choices: seq<Choice>, cur: Dlx)
    requires Chain(cfg, trail, choices, cur) && cfg.Valid() && OpenAlive(cfg, Base(trail, cur))
    ensures OpenAlive(cfg, cur)
    decreases |trail|
  {
    if |trail| > 0 {
      var k := |trail| - 1;
      ChainPop(cfg, trail, choices, cur);
      ChainOpenAlive(cfg, trail[..k], choices[..k], trail[k]);
      ChooseOpenAlive(cfg, trail[k], choices[k].cand);
    }
  }

  /**
   * In a state reached by choices from the matrix before any choice, the
   * open Constraints are those no choice covers, and every Candidate whose
   * Constraints are all open is linked in whole.
   */
  lemma ChainFacts(cfg: Config, trail: seq<Dlx>, choices: seq<Choice>, cur: Dlx)
    requires cfg.Valid() && Chain(cfg, trail, choices, cur) && Good(cfg, cur) && Pristine(cfg, Base(trail, cur))
    ensures Uncovered(cfg, cur.covered) == AllHeaderSet(cfg) - CoveredBy(cfg, choices)
    ensures OpenAlive(cfg, cur) && Disjoint(cfg, choices) && Placed(cfg, choices)
  {
    BaseGood(cfg, trail, choices, cur);
    ChainUncovered(cfg, trail, choices, cur);
    ChainOpenAlive(cfg, trail, choices, cur);
    ChainPlaced(cfg, trail, choices, cur);
  }

  // ---------------------------------------------------------------------------
  // The column walk meets every solution

  /**
   * A solution keeping the current choices covers an open Constraint sel with
   * a Candidate whose Node under sel is still linked.
   */
  lemma SolutionNode(cfg: Config, s: Dlx, choices: seq<Choice>, cs: seq<Choice>, sel: int) returns (y: int)
    requires Good(cfg, s) && OpenAlive(cfg, s)
    requires Uncovered(cfg, s.covered) == AllHeaderSet(cfg) - CoveredBy(cfg, choices)
    requires Placed(cfg, cs) && ExactCover(cfg, cs) && Keeps(choices, cs)
    requires IsHeader(cfg, sel) && !s.covered[sel]
    ensures y in Filter(Members(cfg, sel), s.linked) && IsNode(cfg, y) && ChoiceOf(cfg, CandOf(cfg, y)) in cs
  {
    AllHeaderSetMember(cfg);
    OpenUncovered(cfg, s.covered, sel);
    var j := CoveredByWitness(cfg, cs, sel);
    var c := cs[j].cand;
    ConsListProps(cfg, c);
    ElemsMember(ConsList(cfg, c));
    forall f | 0 <= f < 4
      ensures Open(s, ConsList(cfg, c)[f])
    {
      var h := ConsList(cfg, c)[f];
      if !Open(s, h) {
        OpenUncovered(cfg, s.covered, h);
        var i := CoveredByWitness(cfg, choices, h);
        assert choices[i] in cs;
        var i' :| 0 <= i' < |cs| && cs[i'] == choices[i];
        ElemsMember(ConsList(cfg, choices[i].cand));
        if i' == j {
          CoveredByMember(cfg, choices, i);
        } else if i' < j {
          DisjointPairs(cfg, cs, i', j);
        } else {
          DisjointPairs(cfg, cs, j, i');
        }
        assert false;
      }
    }
    assert Alive(cfg, s, c);
    var f :| 0 <= f < 4 && ConsList(cfg, c)[f] == sel;
    y := Slot(cfg, c, f + 1);
    SlotFacts(cfg, c, f + 1);
    MemberOfOwnColumn(cfg, y);
    FilterMember(Members(cfg, sel), s.linked);
    assert Members(cfg, sel)[MemberIndex(cfg, y)] == y;
  }

  /** When an open Constraint has no Node left, no solution keeps the current choices. */
  lemma DeadEnd(cfg: Config, s: Dlx, choices: seq<Choice>, sel: int)
    requires Good(cfg, s) && OpenAlive(cfg, s)
    requires Uncovered(cfg, s.covered) == AllHeaderSet(cfg) - CoveredBy(cfg, choices)
    requires IsHeader(cfg, sel) && !s.covered[sel] && s.size[sel] <= 0
    ensures forall g :: !Solution(cfg, g, choices)
  {
    forall g
      ensures !Solution(cfg, g, choices)
    {
      if Solution(cfg, g, choices) {
        var cs :| Placed(cfg, cs) && ExactCover(cfg, cs) && Keeps(choices, cs) && Shows(cfg, g, cs);
        var y := SolutionNode(cfg, s, choices, cs, sel);
        assert false;
      }
    }
  }

  /** The entries solve tries under sel: the current choices and the Candidate of the p-th linked Node. */
  function Branch(cfg: Config, choices: seq<Choice>, F: seq<int>, p: int): seq<Choice>
    requires cfg.Valid() && 0 <= p < |F|
  {
    choices + [ChoiceOf(cfg, CandOf(cfg, F[p]))]
  }

  /** A solution keeping the current choices keeps the Candidate of some linked Node under sel too. */
  lemma SolutionBranch(cfg: Config, s: Dlx, choices: seq<Choice>, sel: int, F: seq<int>, g: string) returns (p: int)
    requires Good(cfg, s) && OpenAlive(cfg, s)
    requires Uncovered(cfg, s.covered) == AllHeaderSet(cfg) - CoveredBy(cfg, choices)
    requires IsHeader(cfg, sel) && !s.covered[sel] && F == Filter(Members(cfg, sel), s.linked)
    requires Solution(cfg, g, choices)
    ensures 0 <= p < |F| && Solution(cfg, g, Branch(cfg, choices, F, p))
  {
    var cs :| Placed(cfg, cs) && ExactCover(cfg, cs) && Keeps(choices, cs) && Shows(cfg, g, cs);
    var y := SolutionNode(cfg, s, choices, cs, sel);
    p :| 0 <= p < |F| && F[p] == y;
    assert Keeps(Branch(cfg, choices, F, p), cs);
  }

  // ---------------------------------------------------------------------------
  // A text names its Candidates

  /** Two Candidates in the same cell with the same digit are the same Candidate. */
  lemma SameCand(cfg: Config, a: int, b: int)
    requires cfg.Valid() && 0 <= a < cfg.NumCandidates() && 0 <= b < cfg.NumCandidates()
    requires CandLoc(cfg, a) == CandLoc(cfg, b) && CandNum(cfg, a) == CandNum(cfg, b)
    ensures a == b
  {
    Unpack(a, cfg.n, cfg.Cells());
    Unpack(b, cfg.n, cfg.Cells());
  }

  /** Every entry of a placed list shown by the text of an exact cover is an entry of that cover. */
  lemma ShownEntry(cfg: Config, g: string, cs: seq<Choice>, ds: seq<Choice>, k: int)
    requires cfg.Valid() && Placed(cfg, cs) && ExactCover(cfg, cs) && Shows(cfg, g, cs)
    requires Placed(cfg, ds) && Shows(cfg, g, ds) && 0 <= k < |ds|
    ensures ds[k] in cs
  {
    var x := ds[k];
    var j := ExactCoverFills(cfg, cs, x.location);
    var y := cs[j];
    CandDecode(cfg, x.cand);
    CandDecode(cfg, y.cand);
    SymbolValue(CandNum(cfg, x.cand));
    SymbolValue(CandNum(cfg, y.cand));
    SameCand(cfg, x.cand, y.cand);
  }

  /** Two different Candidates that both cover sel never lead to the same solution text. */
  lemma BranchesDiffer(cfg: Config, g: string, prefix: seq<Choice>, a: int, b: int, sel: int)
    requires cfg.Valid() && 0 <= a < cfg.NumCandidates() && 0 <= b < cfg.NumCandidates() && a != b
    requires sel in ConsList(cfg, a) && sel in ConsList(cfg, b)
    ensures !(Solution(cfg, g, prefix + [ChoiceOf(cfg, a)]) && Solution(cfg, g, prefix + [ChoiceOf(cfg, b)]))
  {
    var pa, pb := prefix + [ChoiceOf(cfg, a)], prefix + [ChoiceOf(cfg, b)];
    if Solution(cfg, g, pa) && Solution(cfg, g, pb) {
      var cs :| Placed(cfg, cs) && ExactCover(cfg, cs) && Keeps(pa, cs) && Shows(cfg, g, cs);
      var ds :| Placed(cfg, ds) && ExactCover(cfg, ds) && Keeps(pb, ds) && Shows(cfg, g, ds);
      assert pa[|prefix|] == ChoiceOf(cfg, a) && pb[|prefix|] == ChoiceOf(cfg, b);
      OtherBranchAbsent(cfg, g, cs, ds, a, b, sel);
      assert false;
    }
  }

  /**
   * When the cover cs shown by g holds Candidate a, a placed list ds shown by
   * the same text holds no other Candidate b covering a Constraint of a.
   */
  lemma OtherBranchAbsent(cfg: Config, g: string, cs: seq<Choice>, ds: seq<Choice>, a: int, b: int, sel: int)
    requires cfg.Valid() && 0 <= a < cfg.NumCandidates() && 0 <= b < cfg.NumCandidates() && a != b
    requires sel in ConsList(cfg, a) && sel in ConsList(cfg, b)
    requires Placed(cfg, cs) && ExactCover(cfg, cs) && Shows(cfg, g, cs) && ChoiceOf(cfg, a) in cs
    requires Placed(cfg, ds) && Shows(cfg, g, ds)
    ensures ChoiceOf(cfg, b) !in ds
  {
    if ChoiceOf(cfg, b) in ds {
      var kb :| 0 <= kb < |ds| && ds[kb] == ChoiceOf(cfg, b);
      ShownEntry(cfg, g, cs, ds, kb);
      var ia :| 0 <= ia < |cs| && cs[ia] == ChoiceOf(cfg, a);
      var ib :| 0 <= ib < |cs| && cs[ib] == ChoiceOf(cfg, b);
      ElemsMember(ConsList(cfg, a));
      ElemsMember(ConsList(cfg, b));
      if ia < ib {
        DisjointPairs(cfg, cs, ia, ib);
      } else {
        DisjointPairs(cfg, cs, ib, ia);
      }
      assert false;
    }
  }

  /** The text of any solution keeping an exact cover is the text of that cover. */
  lemma CoverText(cfg: Config, g: string, g': string, cs: seq<Choice>, ds: seq<Choice>)
    requires cfg.Valid() && Placed(cfg, ds) && ExactCover(cfg, ds) && Shows(cfg, g', ds)
    requires Shows(cfg, g, cs) && Keeps(ds, cs)
    ensures g == g'
  {
    forall i | 0 <= i < |g|
      ensures g[i] == g'[i]
    {
      var j := ExactCoverFills(cfg, ds, i);
      assert ds[j] in cs;
      var k :| 0 <= k < |cs| && cs[k] == ds[j];
    }
  }

  /** An exact cover keeps at least one entry. */
  lemma CoverNonEmpty(cfg: Config, cs: seq<Choice>)
    requires cfg.Valid() && ExactCover(cfg, cs)
    ensures cs != []
  {
    AllHeaderSetMember(cfg);
    ArenaBounds(cfg);
    assert 1 in AllHeaderSet(cfg);
  }

  /** The only solution keeping an exact cover is the cover's own text. */
  lemma CoverFound(cfg: Config, g': string, ds: seq<Choice>)
    requires cfg.Valid() && Placed(cfg, ds) && ExactCover(cfg, ds) && Shows(cfg, g', ds)
    ensures forall g :: Solution(cfg, g, ds) ==> g == g'
  {
    forall g | Solution(cfg, g, ds)
      ensures g == g'
    {
      var cs :| Placed(cfg, cs) && ExactCover(cfg, cs) && Keeps(ds, cs) && Shows(cfg, g, cs);
      CoverText(cfg, g, g', cs, ds);
    }
  }

  // ---------------------------------------------------------------------------
  // What the loop of solve has found

  /** The texts of gs from index lo on are pairwise different. */
  predicate Unique(gs: seq<string>, lo: int)
  {
    forall a, b :: 0 <= lo <= a < b < |gs| ==> gs[a] != gs[b]
  }

  /** Every solution keeping prefix is among the texts of gs from index lo on. */
  ghost predicate AllFound(cfg: Config, gs: seq<string>, lo: int, prefix: seq<Choice>)
    requires cfg.Valid()
  {
    0 <= lo <= |gs| && forall g :: Solution(cfg, g, prefix) ==> g in gs[lo..]
  }

  /** The Candidates of the linked Nodes F under sel: each covers sel, and no two are the same. */
  ghost predicate ColumnCands(cfg: Config, F: seq<int>, sel: int)
    requires cfg.Valid()
  {
    && (forall p :: 0 <= p < |F| ==>
         0 <= CandOf(cfg, F[p]) < cfg.NumCandidates() && sel in ConsList(cfg, CandOf(cfg, F[p])))
    && (forall p, q :: 0 <= p < q < |F| ==> CandOf(cfg, F[p]) != CandOf(cfg, F[q]))
  }

  lemma ColumnCandsOf(cfg: Config, s: Dlx, sel: int)
    requires cfg.Valid() && IsHeader(cfg, sel)
    ensures ColumnCands(cfg, Filter(Members(cfg, sel), s.linked), sel)
  {
    var F := Filter(Members(cfg, sel), s.linked);
    ColumnMembers(cfg, s, sel);
    forall p | 0 <= p < |F|
      ensures 0 <= CandOf(cfg, F[p]) < cfg.NumCandidates() && sel in ConsList(cfg, CandOf(cfg, F[p]))
    {
      var y := F[p];
      var c := CandOf(cfg, y);
      SlotDecode(cfg, y);
      SlotFacts(cfg, c, SlotOf(cfg, y));
      ConsListProps(cfg, c);
      assert ConsList(cfg, c)[SlotOf(cfg, y) - 1] == sel;
    }
    forall p, q | 0 <= p < q < |F|
      ensures CandOf(cfg, F[p]) != CandOf(cfg, F[q])
    {
      if CandOf(cfg, F[p]) == CandOf(cfg, F[q]) {
        SameCandSameColumn(cfg, F[p], F[q]);
      }
    }
  }

  /** Every text of gs from lo on is a solution keeping the entries of one of the first i branches. */
  ghost predicate Tagged(cfg: Config, gs: seq<string>, lo: int, choices: seq<Choice>, F: seq<int>, i: int)
    requires cfg.Valid() && 0 <= i <= |F|
  {
    forall m :: 0 <= lo <= m < |gs| ==> exists p :: 0 <= p < i && Solution(cfg, gs[m], Branch(cfg, choices, F, p))
  }

  /**
   * One more turn of solve's loop: the texts of branch i, all different and
   * all keeping branch i, join the texts of the branches before it without
   * repeating any of them.
   */
  lemma BranchJoin(cfg: Config, choices: seq<Choice>, F: seq<int>, sel: int, i: int,
                   lo: int, out: seq<string>, more: seq<string>)
    requires cfg.Valid() && ColumnCands(cfg, F, sel) && 0 <= i < |F|
    requires 0 <= lo <= |out| <= |more| && more[..|out|] == out
    requires Tagged(cfg, out, lo, choices, F, i) && Unique(out, lo)
    requires SolutionsFrom(cfg, more, |out|, Branch(cfg, choices, F, i)) && Unique(more, |out|)
    ensures Tagged(cfg, more, lo, choices, F, i + 1) && Unique(more, lo)
  {
    forall m | lo <= m < |more|
      ensures exists p :: 0 <= p < i + 1 && Solution(cfg, more[m], Branch(cfg, choices, F, p))
    {
      if m < |out| {
        assert more[m] == out[m];
        var p :| 0 <= p < i && Solution(cfg, out[m], Branch(cfg, choices, F, p));
      } else {
        assert Solution(cfg, more[m], Branch(cfg, choices, F, i));
      }
    }
    forall a, b | lo <= a < b < |more|
      ensures more[a] != more[b]
    {
      if a < |out| {
        assert more[a] == out[a];
        if b < |out| {
          assert more[b] == out[b];
        } else {
          var p :| 0 <= p < i && Solution(cfg, out[a], Branch(cfg, choices, F, p));
          assert Solution(cfg, more[b], Branch(cfg, choices, F, i));
          BranchesDiffer(cfg, more[b], choices, CandOf(cfg, F[p]), CandOf(cfg, F[i]), sel);
        }
      }
    }
  }

  /** ... and every solution of the branches so far is still among the texts. */
  lemma FoundJoin(cfg: Config, choices: seq<Choice>, F: seq<int>, i: int,
                  lo: int, out: seq<string>, more: seq<string>)
    requires cfg.Valid() && 0 <= i < |F|
    requires 0 <= lo <= |out| <= |more| && more[..|out|] == out
    requires forall p :: 0 <= p < i ==> AllFound(cfg, out, lo, Branch(cfg, choices, F, p))
    requires AllFound(cfg, more, |out|, Branch(cfg, choices, F, i))
    ensures forall p :: 0 <= p < i + 1 ==> AllFound(cfg, more, lo, Branch(cfg, choices, F, p))
  {
    forall p, g | 0 <= p < i + 1 && Solution(cfg, g, Branch(cfg, choices, F, p))
      ensures g in more[lo..]
    {
      if p < i {
        assert AllFound(cfg, out, lo, Branch(cfg, choices, F, p));
        var m :| lo <= m < |out| && out[m] == g;
        assert more[m] == g;
      } else {
        var m :| |out| <= m < |more| && more[m] == g;
      }
    }
  }

  /**
   * Where solve's loop stands after the first i branches under a Constraint:
   * the texts found from lo on each solve one of those branches and differ
   * pairwise, and while solutions are still wanted (want) every one of those
   * branches had all of its solutions found.
   */
  ghost predicate Swept(cfg: Config, gs: seq<string>, lo: int, choices: seq<Choice>, F: seq<int>, i: int, want: bool)
    requires cfg.Valid() && 0 <= i <= |F|
  {
    && 0 <= lo <= |gs|
    && Tagged(cfg, gs, lo, choices, F, i) && Unique(gs, lo)
    && (want ==> forall p :: 0 <= p < i ==> AllFound(cfg, gs, lo, Branch(cfg, choices, F, p)))
  }

  /**
   * One turn of solve's loop keeps Swept: the texts more of branch i extend
   * out, and solutions still wanted afterwards were still wanted before.
   */
  lemma SweepStep(cfg: Config, choices: seq<Choice>, F: seq<int>, sel: int, i: int,
                  lo: int, out: seq<string>, more: seq<string>, want: bool, want': bool)
    requires cfg.Valid() && ColumnCands(cfg, F, sel) && 0 <= i < |F|
    requires |out| <= |more| && more[..|out|] == out && Swept(cfg, out, lo, choices, F, i, want)
    requires SolutionsFrom(cfg, more, |out|, Branch(cfg, choices, F, i)) && Unique(more, |out|)
    requires want' ==> want && AllFound(cfg, more, |out|, Branch(cfg, choices, F, i))
    ensures Swept(cfg, more, lo, choices, F, i + 1, want') && more[..lo] == out[..lo]
  {
    assert more[..lo] == more[..|out|][..lo];
    BranchJoin(cfg, choices, F, sel, i, lo, out, more);
    if want' {
      FoundJoin(cfg, choices, F, i, lo, out, more);
    }
  }

  /** Once every branch under sel is explored, every solution keeping the choices has been found. */
  lemma ColumnFound(cfg: Config, s: Dlx, choices: seq<Choice>, sel: int, F: seq<int>, gs: seq<string>, lo: int)
    requires Good(cfg, s) && OpenAlive(cfg, s)
    requires Uncovered(cfg, s.covered) == AllHeaderSet(cfg) - CoveredBy(cfg, choices)
    requires IsHeader(cfg, sel) && !s.covered[sel] && F == Filter(Members(cfg, sel), s.linked)
    requires 0 <= lo <= |gs| && forall p :: 0 <= p < |F| ==> AllFound(cfg, gs, lo, Branch(cfg, choices, F, p))
    ensures AllFound(cfg, gs, lo, choices)
  {
    forall g | Solution(cfg, g, choices)
      ensures g in gs[lo..]
    {
      var p := SolutionBranch(cfg, s, choices, sel, F, g);
      assert AllFound(cfg, gs, lo, Branch(cfg, choices, F, p));
    }
  }

  /** The texts of the branches are solutions keeping the current choices. */
  lemma TaggedSolutions(cfg: Config, gs: seq<string>, lo: int, choices: seq<Choice>, F: seq<int>, i: int)
    requires cfg.Valid() && 0 <= i <= |F| && Tagged(cfg, gs, lo, choices, F, i)
    ensures SolutionsFrom(cfg, gs, lo, choices)
  {
    forall m | 0 <= lo <= m < |gs|
      ensures Solution(cfg, gs[m], choices)
    {
      var p :| 0 <= p < i && Solution(cfg, gs[m], Branch(cfg, choices, F, p));
      SolutionWeaken(cfg, gs[m], choices, Branch(cfg, choices, F, p));
    }
  }

  // ---------------------------------------------------------------------------
  // A full grid

  /** Disjoint choices cover four Constraints each. */
  lemma {:induction false} CoveredByCard(cfg: Config, cs: seq<Choice>)
    requires cfg.Valid() && Disjoint(cfg, cs) && forall j :: 0 <= j < |cs| ==> 0 <= cs[j].cand < cfg.NumCandidates()
    ensures |CoveredBy(cfg, cs)| == 4 * |cs|
    decreases |cs|
  {
    if |cs| > 0 {
      var k := |cs| - 1;
      CoveredByCard(cfg, cs[..k]);
      ConsListProps(cfg, cs[k].cand);
      ElemsCard(ConsList(cfg, cs[k].cand));
      var A, B := CoveredBy(cfg, cs[..k]), Elems(ConsList(cfg, cs[k].cand));
      assert A * B == {};
    }
  }

  /** There are 4n^2 Constraints. */
  lemma AllHeaderSetCard(cfg: Config)
    ensures |AllHeaderSet(cfg)| == cfg.NumHeaders()
  {
    ElemsCard(HeaderSeq(cfg));
  }

  /** One disjoint choice in every cell of the grid is an exact cover. */
  lemma FullCover(cfg: Config, cs: seq<Choice>)
    requires cfg.Valid() && Disjoint(cfg, cs) && |cs| == cfg.Cells()
    requires forall j :: 0 <= j < |cs| ==> 0 <= cs[j].cand < cfg.NumCandidates()
    ensures ExactCover(cfg, cs)
  {
    CoveredByCard(cfg, cs);
    AllHeaderSetCard(cfg);
    CoveredByHeaders(cfg, cs);
    AllHeaderSetMember(cfg);
    forall h | h in CoveredBy(cfg, cs)
      ensures h in AllHeaderSet(cfg)
    {
      assert IsHeader(cfg, h);
    }
    SubsetFull(CoveredBy(cfg, cs), AllHeaderSet(cfg));
  }

  /** Loading a grid whose every cell holds a digit in 1 .. n chooses one Candidate per cell, without error. */
  lemma {:induction false} LoadFull(cfg: Config, es: seq<Entry>, k: int)
    requires cfg.Valid() && 0 <= k <= |es| && k <= cfg.Cells()
    requires forall i :: 0 <= i < k ==> Fills(cfg, es[i])
    ensures Load(cfg, es, k).err.None? && |Load(cfg, es, k).cs| == k
    decreases k
  {
    if k > 0 {
      LoadFull(cfg, es, k - 1);
      LoadStep(cfg, es, k - 1);
    }
  }

  /** A full grid of givens that share no Constraint is already an exact cover. */
  lemma FullGridCover(cfg: Config, es: seq<Entry>)
    requires cfg.Valid() && |es| == cfg.Cells() && Consistent(cfg, es)
    requires forall i :: 0 <= i < |es| ==> Fills(cfg, es[i])
    ensures Load(cfg, es, |es|).err.None? && ExactCover(cfg, Load(cfg, es, |es|).cs)
    ensures Placed(cfg, Load(cfg, es, |es|).cs)
  {
    LoadFull(cfg, es, |es|);
    LoadPlaced(cfg, es, |es|);
    FullCover(cfg, Load(cfg, es, |es|).cs);
  }

  /** Once the choices cover every Constraint the header ring is empty: solve has reached a solution. */
  lemma FullRing(cfg: Config, s: Dlx, choices: seq<Choice>)
    requires cfg.Valid() && Good(cfg, s) && ExactCover(cfg, choices)
    requires Uncovered(cfg, s.covered) == AllHeaderSet(cfg) - CoveredBy(cfg, choices)
    ensures s.right[0] == 0
  {
    var U := Filter(HeaderSeq(cfg), Uncovered(cfg, s.covered));
    HeaderWalk(cfg, s, U);
    if |U| > 0 {
      OpenUncovered(cfg, s.covered, U[0]);
      assert false;
    }
  }

  /**
   * The dead end of solve, stated on the chain of choices: when the chosen
   * Constraint has no Node left, no solution keeps the choices made.
   */
  lemma StuckNone(cfg: Config, trail: seq<Dlx>, choices: seq<Choice>, s: Dlx, sel: int)
    requires cfg.Valid() && Chain(cfg, trail, choices, s) && Good(cfg, s) && Pristine(cfg, Base(trail, s))
    requires IsHeader(cfg, sel) && !s.covered[sel] && s.size[sel] <= 0
    ensures forall g :: !Solution(cfg, g, choices)
  {
    ChainFacts(cfg, trail, choices, s);
    DeadEnd(cfg, s, choices, sel);
  }

  /**
   * The branches of solve's loop, stated on the chain of choices: when every
   * branch under the chosen Constraint has found all its solutions, all
   * solutions keeping the choices made were found.
   */
  lemma BranchesFound(cfg: Config, trail: seq<Dlx>, choices: seq<Choice>, s: Dlx, sel: int,
                      F: seq<int>, gs: seq<string>, lo: int)
    requires cfg.Valid() && Chain(cfg, trail, choices, s) && Good(cfg, s) && Pristine(cfg, Base(trail, s))
    requires IsHeader(cfg, sel) && !s.covered[sel] && F == Filter(Members(cfg, sel), s.linked)
    requires 0 <= lo <= |gs| && forall p :: 0 <= p < |F| ==> AllFound(cfg, gs, lo, Branch(cfg, choices, F, p))
    ensures AllFound(cfg, gs, lo, choices)
  {
    ChainFacts(cfg, trail, choices, s);
    ColumnFound(cfg, s, choices, sel, F, gs, lo);
  }

  /**
   * A full grid of consistent givens, once loaded, leaves solve nothing to
   * search: something is chosen and the header ring is already empty.
   */
  lemma FullStart(cfg: Config, es: seq<Entry>, trail: seq<Dlx>, choices: seq<Choice>, s: Dlx)
    requires cfg.Valid() && |es| == cfg.Cells() && Consistent(cfg, es)
    requires forall k :: 0 <= k < |es| ==> Fills(cfg, es[k])
    requires Load(cfg, es, |es|).cs == choices
    requires Chain(cfg, trail, choices, s) && Good(cfg, s) && Pristine(cfg, Base(trail, s))
    ensures s.right[0] == 0 && choices != []
  {
    FullGridCover(cfg, es);
    ChainFacts(cfg, trail, choices, s);
    FullRing(cfg, s, choices);
    CoverNonEmpty(cfg, choices);
  }

  /**
   * What the texts solve returns from the top mean, when want > 0 solutions
   * were asked for: none means there is no solution; one, with solutions
   * still wanted, is the only solution; two are two different solutions.
   */
  lemma Outcome(cfg: Config, cs: seq<Choice>, want: int, out: seq<string>)
    requires cfg.Valid() && want > 0
    requires SolutionsFrom(cfg, out, 0, cs) && Unique(out, 0)
    requires want - |out| > 0 ==> AllFound(cfg, out, 0, cs)
    ensures |out| == 0 <==> forall g :: !Solution(cfg, g, cs)
    ensures |out| > 0 ==> Solution(cfg, out[0], cs)
    ensures |out| == 1 && want >= 2 ==> forall g :: Solution(cfg, g, cs) ==> g == out[0]
    ensures |out| >= 2 ==> exists g1, g2 :: g1 != g2 && Solution(cfg, g1, cs) && Solution(cfg, g2, cs)
  {
    if |out| > 0 {
      assert Solution(cfg, out[0], cs);
    }
    if |out| >= 2 {
      assert out[0] != out[1] && Solution(cfg, out[1], cs);
    }
  }
}
