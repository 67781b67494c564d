/**
 * The stack SudokuMatrix.choices and what it says about the matrix: each
 * entry records a Candidate that Candidate.choose covered, and the states
 * before each choice form a chain that SudokuMatrix.backtrack walks back.
 */
module History {
  import opened Layout
  import opened Rings
  import opened Dance

  /** An entry of SudokuMatrix.choices: the chosen Candidate's cell and the Candidate. */
  datatype Choice = Choice(location: int, cand: int)

  /** The entry Candidate.choose pushes for Candidate c. */
  function ChoiceOf(cfg: Config, c: int): Choice
    requires cfg.n > 0
  {
    Choice(CandLoc(cfg, c), c)
  }

  /** Every Constraint header. */
  function AllHeaderSet(cfg: Config): set<int>
  {
    Elems(HeaderSeq(cfg))
  }

  /** Exactly the headers are members of AllHeaderSet. */
  lemma AllHeaderSetMember(cfg: Config)
    ensures forall k :: k in AllHeaderSet(cfg) <==> IsHeader(cfg, k)
  {
    ElemsMember(HeaderSeq(cfg));
    forall k | IsHeader(cfg, k)
      ensures k in HeaderSeq(cfg)
    {
      assert HeaderSeq(cfg)[k - 1] == k;
    }
  }

  /** The headers covered by the Candidates of cs. */
  function CoveredBy(cfg: Config, cs: seq<Choice>): set<int>
    requires cfg.Valid()
  {
    if |cs| == 0 then {} else CoveredBy(cfg, cs[..|cs| - 1]) + Elems(ConsList(cfg, cs[|cs| - 1].cand))
  }

  /** No two Candidates of cs share a Constraint. */
  ghost predicate Disjoint(cfg: Config, cs: seq<Choice>)
    requires cfg.Valid()
  {
    |cs| == 0 || (Disjoint(cfg, cs[..|cs| - 1]) && CoveredBy(cfg, cs[..|cs| - 1]) !! Elems(ConsList(cfg, cs[|cs| - 1].cand)))
  }

  /**
   * Link i of the chain: trail[i] is the state before choices[i] was chosen.
   * It satisfied the invariant with all four Constraints of the Candidate
   * open, and choosing the Candidate in it gives the next state.
   */
  ghost predicate Link(cfg: Config, trail: seq<Dlx>, choices: seq<Choice>, cur: Dlx, i: int)
    requires 0 <= i < |trail| == |choices|
  {
    var c := choices[i].cand;
    && cfg.Valid() && 0 <= c < cfg.NumCandidates() && choices[i] == ChoiceOf(cfg, c)
    && Good(cfg, trail[i]) && AllOpen(trail[i], ConsList(cfg, c))
    && ChooseF(cfg, trail[i], c) == (if i + 1 < |trail| then trail[i + 1] else cur)
  }

  /** The states before each choice, ending in the current state cur. */
  ghost predicate Chain(cfg: Config, trail: seq<Dlx>, choices: seq<Choice>, cur: Dlx)
  {
    |trail| == |choices| && forall i :: 0 <= i < |trail| ==> Link(cfg, trail, choices, cur, i)
  }

  /** The state before any choice. */
  function Base(trail: seq<Dlx>, cur: Dlx): Dlx
  {
    if |trail| > 0 then trail[0] else cur
  }

  /** The state before any choice satisfies the invariant when the current state does. */
  lemma BaseGood(cfg: Config, trail: seq<Dlx>, choices: seq<Choice>, cur: Dlx)
    requires Chain(cfg, trail, choices, cur) && Good(cfg, cur)
    ensures Good(cfg, Base(trail, cur))
  {
    if |trail| > 0 {
      assert Link(cfg, trail, choices, cur, 0);
    }
  }

  /** Choosing c in the current state extends the chain by one link. */
  lemma ChainPush(cfg: Config, trail: seq<Dlx>, choices: seq<Choice>, cur: Dlx, c: int)
    requires Chain(cfg, trail, choices, cur) && cfg.Valid() && Good(cfg, cur)
    requires 0 <= c < cfg.NumCandidates() && AllOpen(cur, ConsList(cfg, c))
    ensures Chain(cfg, trail + [cur], choices + [ChoiceOf(cfg, c)], ChooseF(cfg, cur, c))
    ensures Base(trail + [cur], ChooseF(cfg, cur, c)) == Base(trail, cur)
  {
    var trail', choices', cur' := trail + [cur], choices + [ChoiceOf(cfg, c)], ChooseF(cfg, cur, c);
    forall i | 0 <= i < |trail'|
      ensures Link(cfg, trail', choices', cur', i)
    {
      if i < |trail| {
        assert Link(cfg, trail, choices, cur, i);
        assert trail'[i] == trail[i] && choices'[i] == choices[i];
        if i + 1 < |trail| {
          assert trail'[i + 1] == trail[i + 1];
        }
      }
    }
  }

  /** Dropping the last link leaves a chain ending in the state before the last choice. */
  lemma ChainPop(cfg: Config, trail: seq<Dlx>, choices: seq<Choice>, cur: Dlx)
    requires Chain(cfg, trail, choices, cur) && |trail| > 0
    ensures var k := |trail| - 1;
      && Chain(cfg, trail[..k], choices[..k], trail[k])
      && Base(trail[..k], trail[k]) == Base(trail, cur)
      && Link(cfg, trail, choices, cur, k)
  {
    var k := |trail| - 1;
    forall i | 0 <= i < k
      ensures Link(cfg, trail[..k], choices[..k], trail[k], i)
    {
      assert Link(cfg, trail, choices, cur, i);
    }
    assert Link(cfg, trail, choices, cur, k);
  }

  /** Choosing c takes its four Constraints, all open, out of the open headers. */
  lemma ChooseUncovered(cfg: Config, t: Dlx, c: int, B: set<int>, D: set<int>)
    requires cfg.Valid() && Good(cfg, t) && 0 <= c < cfg.NumCandidates() && AllOpen(t, ConsList(cfg, c))
    requires Uncovered(cfg, t.covered) == B - D
    ensures Uncovered(cfg, ChooseF(cfg, t, c).covered) == B - (D + Elems(ConsList(cfg, c)))
    ensures D !! Elems(ConsList(cfg, c))
  {
    ChooseGood(cfg, t, c);
    ConsListProps(cfg, c);
    ElemsMember(ConsList(cfg, c));
    forall h | h in Elems(ConsList(cfg, c))
      ensures h in Uncovered(cfg, t.covered)
    {
      var f :| 0 <= f < 4 && ConsList(cfg, c)[f] == h;
      OpenUncovered(cfg, t.covered, h);
    }
  }

  /**
   * Along a chain the open headers are those open at the start less the ones
   * the chosen Candidates cover, and no two chosen Candidates share a Constraint.
   */
  lemma {:induction false} ChainUncovered(cfg: Config, trail: seq<Dlx>, choices: seq<Choice>, cur: Dlx)
    requires Chain(cfg, trail, choices, cur) && cfg.Valid() && Good(cfg, Base(trail, cur))
    ensures Uncovered(cfg, cur.covered) == Uncovered(cfg, Base(trail, cur).covered) - CoveredBy(cfg, choices)
    ensures Disjoint(cfg, choices)
    decreases |trail|
  {
    if |trail| > 0 {
      var k := |trail| - 1;
      ChainPop(cfg, trail, choices, cur);
      var t, c := trail[k], choices[k].cand;
      if k > 0 {
        assert Good(cfg, Base(trail[..k], t));
      }
      ChainUncovered(cfg, trail[..k], choices[..k], t);
      ChooseUncovered(cfg, t, c, Uncovered(cfg, Base(trail, cur).covered), CoveredBy(cfg, choices[..k]));
    }
  }

  /** Each entry's Constraints are among those the entries cover. */
  lemma {:induction false} CoveredByMember(cfg: Config, cs: seq<Choice>, j: int)
    requires cfg.Valid() && 0 <= j < |cs|
    ensures Elems(ConsList(cfg, cs[j].cand)) <= CoveredBy(cfg, cs)
    decreases |cs|
  {
    if j < |cs| - 1 {
      CoveredByMember(cfg, cs[..|cs| - 1], j);
    }
  }

  /** In a disjoint list, two different entries share no Constraint. */
  lemma {:induction false} DisjointPairs(cfg: Config, cs: seq<Choice>, i: int, j: int)
    requires cfg.Valid() && Disjoint(cfg, cs) && 0 <= i < j < |cs|
    ensures Elems(ConsList(cfg, cs[i].cand)) !! Elems(ConsList(cfg, cs[j].cand))
    decreases |cs|
  {
    var k := |cs| - 1;
    if j < k {
      DisjointPairs(cfg, cs[..k], i, j);
    } else {
      CoveredByMember(cfg, cs[..k], i);
    }
  }

  /** The entries of cs are well formed and sit in distinct cells of the grid. */
  ghost predicate Placed(cfg: Config, cs: seq<Choice>)
    requires cfg.Valid()
  {
    && (forall j :: 0 <= j < |cs| ==> 0 <= cs[j].cand < cfg.NumCandidates() && cs[j] == ChoiceOf(cfg, cs[j].cand))
    && (forall i, j :: 0 <= i < j < |cs| ==> cs[i].location != cs[j].location)
  }

  /** The cell Constraint of a Candidate is the header of its location. */
  lemma CellConstraint(cfg: Config, c: int)
    requires cfg.Valid() && 0 <= c < cfg.NumCandidates()
    ensures ConsList(cfg, c)[CEL] == Header(CEL, CandLoc(cfg, c))
    ensures ConsList(cfg, c)[CEL] in Elems(ConsList(cfg, c))
  {
    ElemsMember(ConsList(cfg, c));
  }

  /** Two disjoint choices never fill the same cell. */
  lemma DisjointPlaced(cfg: Config, cs: seq<Choice>)
    requires cfg.Valid() && Disjoint(cfg, cs)
    requires forall j :: 0 <= j < |cs| ==> 0 <= cs[j].cand < cfg.NumCandidates() && cs[j] == ChoiceOf(cfg, cs[j].cand)
    ensures Placed(cfg, cs)
  {
    forall i, j | 0 <= i < j < |cs|
      ensures cs[i].location != cs[j].location
    {
      DisjointPairs(cfg, cs, i, j);
      CellConstraint(cfg, cs[i].cand);
      CellConstraint(cfg, cs[j].cand);
    }
  }

  /** The entries along a chain are placed in distinct cells. */
  lemma ChainPlaced(cfg: Config, trail: seq<Dlx>, choices: seq<Choice>, cur: Dlx)
    requires Chain(cfg, trail, choices, cur) && cfg.Valid() && Good(cfg, Base(trail, cur))
    ensures Placed(cfg, choices)
  {
    ChainUncovered(cfg, trail, choices, cur);
    forall j | 0 <= j < |choices|
      ensures 0 <= choices[j].cand < cfg.NumCandidates() && choices[j] == ChoiceOf(cfg, choices[j].cand)
    {
      assert Link(cfg, trail, choices, cur, j);
    }
    DisjointPlaced(cfg, choices);
  }

  // ---------------------------------------------------------------------------
  // The steps of Candidate.choose and Candidate.unchoose

  /**
   * Walking right from the head of Candidate c meets its cel, row, col and box
   * Nodes in turn, each in the column of the matching Constraint.
   */
  lemma RowStep(cfg: Config, s: Dlx, c: int, j: int)
    requires Shaped(cfg, s) && RowsStatic(cfg, s) && 0 <= c < cfg.NumCandidates() && 0 <= j < 5
    ensures IsNode(cfg, Slot(cfg, c, j)) && s.right[Slot(cfg, c, j)] == if j < 4 then Slot(cfg, c, j + 1) else Head(cfg, c)
    ensures j > 0 ==> ColOf(cfg, Slot(cfg, c, j)) == ConsList(cfg, c)[j - 1]
  {
    SlotFacts(cfg, c, j);
    ConsListProps(cfg, c);
    SlotRight(cfg, c, j);
  }

  /** The right neighbour of slot j in a Candidate's row ring. */
  lemma SlotRight(cfg: Config, c: int, j: int)
    requires cfg.Valid() && 0 <= c < cfg.NumCandidates() && 0 <= j < 5
    ensures RightOf(cfg, Slot(cfg, c, j)) == if j < 4 then Slot(cfg, c, j + 1) else Head(cfg, c)
  {
    SlotFacts(cfg, c, j);
    if j < 4 {
      assert (j + 1) % 5 == j + 1;
    } else {
      assert (j + 1) % 5 == 0;
    }
  }

  /** Covering one more header of ks extends the prefix covered so far. */
  lemma CoverListSnoc(cfg: Config, s: Dlx, ks: seq<int>, j: int)
    requires Shaped(cfg, s) && AllHeaders(cfg, ks) && 0 <= j < |ks|
    ensures AllHeaders(cfg, ks[..j]) && AllHeaders(cfg, ks[..j + 1]) && IsHeader(cfg, ks[j])
    ensures CoverList(cfg, s, ks[..j + 1]) == CoverF(cfg, CoverList(cfg, s, ks[..j]), ks[j])
  {
    assert ks[..j + 1][..j] == ks[..j];
  }

  /**
   * Covering the first j Constraints of a Candidate whose four Constraints
   * are open keeps the invariant and leaves the next one open.
   */
  lemma ChoosePrefix(cfg: Config, s: Dlx, c: int, j: int)
    requires Good(cfg, s) && 0 <= c < cfg.NumCandidates() && AllOpen(s, ConsList(cfg, c)) && 0 <= j <= 4
    ensures AllHeaders(cfg, ConsList(cfg, c)[..j]) && Good(cfg, CoverList(cfg, s, ConsList(cfg, c)[..j]))
    ensures j < 4 ==> IsHeader(cfg, ConsList(cfg, c)[j]) && !CoverList(cfg, s, ConsList(cfg, c)[..j]).covered[ConsList(cfg, c)[j]]
  {
    var K := ConsList(cfg, c);
    ConsListProps(cfg, c);
    var P := K[..j];
    assert forall i :: 0 <= i < |P| ==> P[i] == K[i];
    CoverListGood(cfg, s, P);
    if j < 4 {
      CoverListCovered(cfg, s, P);
      ElemsMember(P);
      var k := K[j];
      assert k !in P by {
        forall i | 0 <= i < |P|
          ensures P[i] != k
        {
          assert P[i] == K[i];
        }
      }
      assert Open(s, K[j]);
      OpenUncovered(cfg, s.covered, k);
      OpenUncovered(cfg, CoverList(cfg, s, P).covered, k);
    }
  }

  /**
   * One step of the loop of Candidate.choose: with the first j Constraints
   * covered, the next Node met going right lies in the next Constraint,
   * covering that Constraint extends the prefix and keeps the invariant, and
   * the Node's right link still leads on along the Candidate's row.
   */
  lemma ChooseStep(cfg: Config, s: Dlx, c: int, j: int)
    requires Good(cfg, s) && 0 <= c < cfg.NumCandidates() && AllOpen(s, ConsList(cfg, c)) && 0 <= j < 4
    ensures AllHeaders(cfg, ConsList(cfg, c)[..j]) && AllHeaders(cfg, ConsList(cfg, c)[..j + 1])
    ensures Good(cfg, CoverList(cfg, s, ConsList(cfg, c)[..j])) && !CoverList(cfg, s, ConsList(cfg, c)[..j]).covered[ConsList(cfg, c)[j]]
    ensures CoverList(cfg, s, ConsList(cfg, c)[..j + 1]).covered[ConsList(cfg, c)[j]]
    ensures ColOf(cfg, Slot(cfg, c, j + 1)) == ConsList(cfg, c)[j] && IsHeader(cfg, ConsList(cfg, c)[j])
    ensures CoverF(cfg, CoverList(cfg, s, ConsList(cfg, c)[..j]), ConsList(cfg, c)[j]) == CoverList(cfg, s, ConsList(cfg, c)[..j + 1])
    ensures CoverList(cfg, s, ConsList(cfg, c)[..j + 1]).right[Slot(cfg, c, j + 1)] == if j < 3 then Slot(cfg, c, j + 2) else Head(cfg, c)
  {
    ConsListProps(cfg, c);
    ChoosePrefix(cfg, s, c, j);
    ChoosePrefix(cfg, s, c, j + 1);
    CoverListSnoc(cfg, s, ConsList(cfg, c), j);
    CoverFCovered(cfg, CoverList(cfg, s, ConsList(cfg, c)[..j]), ConsList(cfg, c)[j]);
    RowStep(cfg, CoverList(cfg, s, ConsList(cfg, c)[..j + 1]), c, j + 1);
  }

  /** All four Constraints covered is Candidate.choose. */
  lemma ChooseAll(cfg: Config, s: Dlx, c: int)
    requires Shaped(cfg, s) && 0 <= c < cfg.NumCandidates()
    ensures AllHeaders(cfg, ConsList(cfg, c)[..4]) && CoverList(cfg, s, ConsList(cfg, c)[..4]) == ChooseF(cfg, s, c)
  {
    ConsListProps(cfg, c);
    assert ConsList(cfg, c)[..4] == ConsList(cfg, c);
  }

  /** Choosing a Candidate whose Constraints are open covers at least one more header. */
  lemma ChooseShrinks(cfg: Config, s: Dlx, c: int)
    requires Good(cfg, s) && 0 <= c < cfg.NumCandidates() && AllOpen(s, ConsList(cfg, c))
    ensures |Uncovered(cfg, ChooseF(cfg, s, c).covered)| < |Uncovered(cfg, s.covered)|
  {
    ChooseGood(cfg, s, c);
    ConsListProps(cfg, c);
    var k := ConsList(cfg, c)[0];
    ElemsMember(ConsList(cfg, c));
    assert Open(s, ConsList(cfg, c)[0]);
    OpenUncovered(cfg, s.covered, k);
    assert k in Uncovered(cfg, s.covered) - Uncovered(cfg, ChooseF(cfg, s, c).covered);
  }

  // ---------------------------------------------------------------------------
  // The header ring seen from SudokuMatrix.chosen_constraint

  /** After the Root, the header ring lists exactly the open headers, in increasing order. */
  lemma OpenHeaders(cfg: Config, s: Dlx)
    requires Shaped(cfg, s)
    ensures HeaderRing(cfg, s) == [0] + Filter(HeaderSeq(cfg), Uncovered(cfg, s.covered))
    ensures Increasing(Filter(HeaderSeq(cfg), Uncovered(cfg, s.covered)))
    ensures forall k :: k in Filter(HeaderSeq(cfg), Uncovered(cfg, s.covered)) <==> IsHeader(cfg, k) && !s.covered[k]
  {
    HeaderSeqIncreasing(cfg);
    FilterIncreasing(HeaderSeq(cfg), Uncovered(cfg, s.covered));
    FilterMember(HeaderSeq(cfg), Uncovered(cfg, s.covered));
    AllHeaderSetMember(cfg);
    ElemsMember(HeaderSeq(cfg));
  }

  /** Following right links from the Root visits the open headers in increasing order and returns to the Root. */
  lemma HeaderWalk(cfg: Config, s: Dlx, U: seq<int>)
    requires Shaped(cfg, s) && Ring(s.left, s.right, HeaderRing(cfg, s))
    requires U == Filter(HeaderSeq(cfg), Uncovered(cfg, s.covered))
    ensures Increasing(U)
    ensures forall k :: k in U <==> IsHeader(cfg, k) && !s.covered[k]
    ensures forall p :: 0 <= p < |U| ==> IsHeader(cfg, U[p]) && !s.covered[U[p]]
    ensures s.right[0] == if |U| > 0 then U[0] else 0
    ensures forall p :: 0 <= p < |U| ==> s.right[U[p]] == if p + 1 < |U| then U[p + 1] else 0
  {
    OpenHeaders(cfg, s);
    assert forall p :: 0 <= p < |U| ==> U[p] in U;
    RingWalk(s.left, s.right, 0, U, 0);
    forall p | 0 <= p < |U|
      ensures s.right[U[p]] == if p + 1 < |U| then U[p + 1] else 0
    {
      RingWalk(s.left, s.right, 0, U, p + 1);
    }
  }
}
