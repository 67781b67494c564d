/**
 * What the link-walking loops of Constraint.cover, Constraint.uncover and
 * Candidate.choose see while they run: a Candidate's ring read through right
 * and left links, and the column being covered, which stays intact while the
 * Nodes of its sweep are unlinked one by one.
 */
module Walks {
  import opened Layout
  import opened Rings
  import opened Dance

  /** Dropping the last element of a prefix. */
  lemma PrefixStep(xs: seq<int>, p: int)
    requires 0 < p <= |xs|
    ensures |xs[..p]| == p && xs[..p][..p - 1] == xs[..p - 1] && xs[..p][p - 1] == xs[p - 1]
  {
  }

  /** Position 4i + j of Mates(ds) is the j-th row mate of ds[i]. */
  lemma {:induction false} MatesAt(cfg: Config, ds: seq<int>, i: int, j: int)
    requires 0 <= i < |ds| && 0 <= j < 4
    ensures |Mates(cfg, ds)| == 4 * |ds| && 4 * i + j < |Mates(cfg, ds)|
    ensures Mates(cfg, ds)[4 * i + j] == RowMates(cfg, ds[i])[j]
    decreases |ds|
  {
    var init := ds[..|ds| - 1];
    MatesLength(cfg, ds);
    MatesLength(cfg, init);
    if i < |ds| - 1 {
      MatesAt(cfg, init, i, j);
      assert init[i] == ds[i];
    }
  }

  /** Following right links from x meets its row mates in order and then x. */
  lemma RowMatesRight(cfg: Config, x: int, j: int)
    requires cfg.Valid() && IsNode(cfg, x) && 0 <= j < 4
    ensures RightOf(cfg, x) == RowMates(cfg, x)[0]
    ensures RightOf(cfg, RowMates(cfg, x)[j]) == if j < 3 then RowMates(cfg, x)[j + 1] else x
  {
    RowMatesShape(cfg, x);
    SlotShift(cfg, x, 0);
    SlotShift(cfg, x, 1);
    SlotShift(cfg, x, 2);
    SlotShift(cfg, x, 3);
    SlotShift(cfg, x, 4);
  }

  /** Following left links from x meets its row mates backwards and then x. */
  lemma RowMatesLeft(cfg: Config, x: int, j: int)
    requires cfg.Valid() && IsNode(cfg, x) && 0 <= j < 4
    ensures LeftOf(cfg, x) == RowMates(cfg, x)[3]
    ensures LeftOf(cfg, RowMates(cfg, x)[j]) == if j > 0 then RowMates(cfg, x)[j - 1] else x
  {
    RowMatesShape(cfg, x);
    SlotShift(cfg, x, 0);
    SlotShift(cfg, x, 1);
    SlotShift(cfg, x, 2);
    SlotShift(cfg, x, 3);
    SlotShift(cfg, x, 4);
  }

  /** The slot t of the row that holds x is at slot t. */
  lemma SlotShift(cfg: Config, x: int, t: int)
    requires 0 <= t < 5
    ensures SlotOf(cfg, x - SlotOf(cfg, x) + t) == t
  {
    var q := (x - cfg.First()) / 5;
    DivModUnique(x - SlotOf(cfg, x) + t - cfg.First(), 5, q, t);
  }

  /** Every Node's right link is the next slot of its Candidate's ring. */
  ghost predicate RightRing(cfg: Config, right: seq<int>)
  {
    forall z :: IsNode(cfg, z) ==> 0 <= z < |right| && right[z] == RightOf(cfg, z)
  }

  /** Every Node's left link is the previous slot of its Candidate's ring. */
  ghost predicate LeftRing(cfg: Config, left: seq<int>)
  {
    forall z :: IsNode(cfg, z) ==> 0 <= z < |left| && left[z] == LeftOf(cfg, z)
  }

  /** Right links that follow the rings lead from x through its row mates and back to x. */
  lemma RowRightLinks(cfg: Config, right: seq<int>, x: int, j: int)
    requires cfg.Valid() && IsNode(cfg, x) && 0 <= j < 4 && RightRing(cfg, right)
    ensures 0 <= x < |right| && right[x] == RowMates(cfg, x)[0]
    ensures x !in RowMates(cfg, x)
    ensures var y := RowMates(cfg, x)[j]; 0 <= y < |right| && right[y] == if j < 3 then RowMates(cfg, x)[j + 1] else x
  {
    RowMatesProps(cfg, x);
    RowMatesRight(cfg, x, j);
  }

  /** Left links that follow the rings lead from x through its row mates backwards and back to x. */
  lemma RowLeftLinks(cfg: Config, left: seq<int>, x: int, j: int)
    requires cfg.Valid() && IsNode(cfg, x) && 0 <= j < 4 && LeftRing(cfg, left)
    ensures 0 <= x < |left| && left[x] == RowMates(cfg, x)[3]
    ensures x !in RowMates(cfg, x)
    ensures var y := RowMates(cfg, x)[j]; 0 <= y < |left| && left[y] == if j > 0 then RowMates(cfg, x)[j - 1] else x
  {
    RowMatesProps(cfg, x);
    RowMatesLeft(cfg, x, j);
  }

  /** After the first p Nodes of the sweep of an open column are unlinked, every column is still a ring. */
  lemma SweepCovered(cfg: Config, s: Dlx, c: int, u: Dlx, W: seq<int>, p: int)
    requires Good(cfg, s) && IsHeader(cfg, c) && !s.covered[c]
    requires u == UnlinkHeader(cfg, s, c) && W == Sweep(cfg, s, c) && 0 <= p <= |W|
    ensures AllNodes(cfg, W) && Distinct(W)
    ensures ColumnsOk(cfg, CoverSeq(cfg, u, W[..p]))
    ensures CoverSeq(cfg, u, W[..p]).linked == s.linked - Elems(W[..p])
    ensures forall i :: 0 <= i < |W| ==> W[i] in s.linked && W[i] !in Members(cfg, c)
  {
    var V := W[..p];
    SweepNodes(cfg, s, c);
    SweepProps(cfg, s, c);
    assert ColumnsOk(cfg, u);
    forall i | 0 <= i < |V|
      ensures V[i] in u.linked
    {
      assert V[i] == W[i];
    }
    assert Distinct(V);
    CoverSeqOk(cfg, u, V);
  }

  /**
   * The state part-way through covering an open column c, after the first p
   * Nodes of its sweep are unlinked: every column is still a ring, column c
   * itself is untouched, and rows are static.
   */
  lemma SweepPrefix(cfg: Config, s: Dlx, c: int, u: Dlx, W: seq<int>, p: int)
    requires Good(cfg, s) && IsHeader(cfg, c) && !s.covered[c]
    requires u == UnlinkHeader(cfg, s, c) && W == Sweep(cfg, s, c) && 0 <= p <= |W|
    ensures AllNodes(cfg, W)
    ensures ColumnsOk(cfg, CoverSeq(cfg, u, W[..p]))
    ensures Ring(CoverSeq(cfg, u, W[..p]).up, CoverSeq(cfg, u, W[..p]).down, Column(cfg, c, s.linked))
    ensures forall x :: IsNode(cfg, x) ==> u.right[x] == RightOf(cfg, x) && u.left[x] == LeftOf(cfg, x)
  {
    var V := W[..p];
    SweepCovered(cfg, s, c, u, W, p);
    var X := CoverSeq(cfg, u, V);
    ElemsMember(V);
    forall i | 0 <= i < |V|
      ensures V[i] !in Members(cfg, c)
    {
      assert V[i] == W[i];
    }
    FilterSame(Members(cfg, c), X.linked, s.linked);
    assert Ring(X.up, X.down, Column(cfg, c, X.linked));
    UnlinkHeaderRing(cfg, s, c);
    UnlinkHeaderUndo(cfg, s, c);
  }

  /** The row mates of the first q slots of ds are the first 4q entries of Mates(ds). */
  lemma {:induction false} MatesPrefix(cfg: Config, ds: seq<int>, q: int)
    requires 0 <= q <= |ds|
    ensures |Mates(cfg, ds)| == 4 * |ds| && Mates(cfg, ds[..q]) == Mates(cfg, ds)[..4 * q]
    decreases |ds|
  {
    MatesLength(cfg, ds);
    if q == |ds| {
      assert ds[..q] == ds;
    } else {
      var init := ds[..|ds| - 1];
      MatesPrefix(cfg, init, q);
      assert init[..q] == ds[..q];
    }
  }

  /** Covering the next row of the sweep extends the prefix by that row's mates. */
  lemma MatesStep(cfg: Config, ds: seq<int>, i: int)
    requires 0 <= i < |ds|
    ensures |Mates(cfg, ds)| == 4 * |ds|
    ensures Mates(cfg, ds)[..4 * (i + 1)] == Mates(cfg, ds)[..4 * i] + RowMates(cfg, ds[i])
  {
    MatesPrefix(cfg, ds, i);
    MatesPrefix(cfg, ds, i + 1);
    assert ds[..i + 1][..i] == ds[..i];
  }

  /** Covering A and then B is covering A + B. */
  lemma {:induction false} CoverSeqAppend(cfg: Config, s: Dlx, A: seq<int>, B: seq<int>)
    requires Shaped(cfg, s) && AllNodes(cfg, A) && AllNodes(cfg, B)
    ensures AllNodes(cfg, A + B)
    ensures CoverSeq(cfg, s, A + B) == CoverSeq(cfg, CoverSeq(cfg, s, A), B)
    decreases |B|
  {
    AllNodesAppend(cfg, A, B);
    if |B| > 0 {
      var init := B[..|B| - 1];
      AllNodesAppend(cfg, A, init);
      CoverSeqAppend(cfg, s, A, init);
      AppendInit(A, B);
    } else {
      assert A + B == A;
    }
  }

  /** Dropping the last element of A + B, for B non-empty, drops the last element of B. */
  lemma AppendInit(A: seq<int>, B: seq<int>)
    requires |B| > 0
    ensures (A + B)[..|A + B| - 1] == A + B[..|B| - 1] && (A + B)[|A + B| - 1] == B[|B| - 1]
  {
    assert (A + B)[..|A + B| - 1] == A + B[..|B| - 1];
  }

  /** Nodes followed by Nodes are Nodes. */
  lemma AllNodesAppend(cfg: Config, A: seq<int>, B: seq<int>)
    requires AllNodes(cfg, A) && AllNodes(cfg, B)
    ensures AllNodes(cfg, A + B)
  {
    forall i | 0 <= i < |A + B|
      ensures IsNode(cfg, (A + B)[i])
    {
      if i >= |A| {
        assert (A + B)[i] == B[i - |A|];
      }
    }
  }

  /** Uncovering [a] + B uncovers B, right to left, and then a. */
  lemma {:induction false} UncoverSeqCons(cfg: Config, s: Dlx, a: int, B: seq<int>)
    requires Shaped(cfg, s) && IsNode(cfg, a) && AllNodes(cfg, B)
    ensures AllNodes(cfg, [a] + B)
    ensures UncoverSeq(cfg, s, [a] + B) == UncoverNodeF(cfg, UncoverSeq(cfg, s, B), a)
    decreases |B|
  {
    if |B| > 0 {
      var init := B[..|B| - 1];
      UncoverSeqCons(cfg, UncoverNodeF(cfg, s, B[|B| - 1]), a, init);
      assert ([a] + B)[..|B|] == [a] + init;
    } else {
      assert [a] + B == [a];
    }
  }

  /** Covering one more entry of ws is covering the shorter prefix and then that entry. */
  lemma CoverPrefixStep(cfg: Config, s: Dlx, ws: seq<int>, j: int)
    requires Shaped(cfg, s) && AllNodes(cfg, ws) && 0 <= j < |ws|
    ensures AllNodes(cfg, ws[..j]) && AllNodes(cfg, ws[..j + 1]) && IsNode(cfg, ws[j])
    ensures CoverSeq(cfg, s, ws[..j + 1]) == CoverNodeF(cfg, CoverSeq(cfg, s, ws[..j]), ws[j])
  {
    assert ws[..j + 1][..j] == ws[..j];
  }

  /** Uncovering one more entry of ws, from the right, is uncovering the shorter suffix and then that entry. */
  lemma UncoverSuffixStep(cfg: Config, s: Dlx, ws: seq<int>, j: int)
    requires Shaped(cfg, s) && AllNodes(cfg, ws) && 0 < j <= |ws|
    ensures AllNodes(cfg, ws[j..]) && AllNodes(cfg, ws[j - 1..]) && IsNode(cfg, ws[j - 1])
    ensures UncoverSeq(cfg, s, ws[j - 1..]) == UncoverNodeF(cfg, UncoverSeq(cfg, s, ws[j..]), ws[j - 1])
  {
    assert ws[j - 1..] == [ws[j - 1]] + ws[j..];
    UncoverSeqCons(cfg, s, ws[j - 1], ws[j..]);
  }

  /** The entries of W that follow its first p are not among those p, when W has no duplicates. */
  lemma FreshTail(W: seq<int>, p: int, R: seq<int>, L: set<int>)
    requires Distinct(W) && 0 <= p && p + |R| <= |W| && W[..p + |R|] == W[..p] + R
    requires forall i :: 0 <= i < |W| ==> W[i] in L
    ensures forall j :: 0 <= j < |R| ==> R[j] in L - Elems(W[..p])
  {
    ElemsMember(W[..p]);
    forall j | 0 <= j < |R|
      ensures R[j] in L - Elems(W[..p])
    {
      assert W[..p + |R|][p + j] == R[j];
      assert W[p + j] == R[j];
      forall q | 0 <= q < p
        ensures W[..p][q] != R[j]
      {
        assert W[..p][q] == W[q];
      }
    }
  }

  /**
   * Row p of the sweep of an open column c, 0-based: covering its row mates
   * after the first p rows extends the prefix of the sweep by them, and
   * uncovering them, right to left, undoes that.
   */
  lemma SweepRow(cfg: Config, s: Dlx, c: int, u: Dlx, W: seq<int>, F: seq<int>, p: int)
    requires Good(cfg, s) && IsHeader(cfg, c) && !s.covered[c]
    requires u == UnlinkHeader(cfg, s, c) && F == Filter(Members(cfg, c), s.linked) && W == Sweep(cfg, s, c)
    requires 0 <= p < |F|
    ensures |W| == 4 * |F| && IsNode(cfg, F[p]) && AllNodes(cfg, RowMates(cfg, F[p]))
    ensures AllNodes(cfg, W[..4 * p]) && AllNodes(cfg, W[..4 * (p + 1)])
    ensures CoverSeq(cfg, CoverSeq(cfg, u, W[..4 * p]), RowMates(cfg, F[p])) == CoverSeq(cfg, u, W[..4 * (p + 1)])
    ensures UncoverSeq(cfg, CoverSeq(cfg, u, W[..4 * (p + 1)]), RowMates(cfg, F[p])) == CoverSeq(cfg, u, W[..4 * p])
  {
    SweepRowFresh(cfg, s, c, u, W, F, p);
    CoverStep(cfg, u, W[..4 * p], RowMates(cfg, F[p]), W[..4 * (p + 1)]);
  }

  /**
   * Row p of the sweep of an open column: once the rows before it are
   * covered, its Nodes are all still linked, and the sweep goes on with them.
   */
  lemma SweepRowFresh(cfg: Config, s: Dlx, c: int, u: Dlx, W: seq<int>, F: seq<int>, p: int)
    requires Good(cfg, s) && IsHeader(cfg, c) && !s.covered[c]
    requires u == UnlinkHeader(cfg, s, c) && F == Filter(Members(cfg, c), s.linked) && W == Sweep(cfg, s, c)
    requires 0 <= p < |F|
    ensures |W| == 4 * |F| && IsNode(cfg, F[p]) && AllNodes(cfg, RowMates(cfg, F[p])) && Distinct(RowMates(cfg, F[p]))
    ensures AllNodes(cfg, W[..4 * p]) && W[..4 * (p + 1)] == W[..4 * p] + RowMates(cfg, F[p])
    ensures ColumnsOk(cfg, CoverSeq(cfg, u, W[..4 * p]))
    ensures forall j :: 0 <= j < 4 ==> RowMates(cfg, F[p])[j] in CoverSeq(cfg, u, W[..4 * p]).linked
  {
    ColumnMembers(cfg, s, c);
    assert W == Mates(cfg, F);
    MatesStep(cfg, F, p);
    var x := F[p];
    var R := RowMates(cfg, x);
    SweepCovered(cfg, s, c, u, W, 4 * p);
    RowMatesProps(cfg, x);
    FreshTail(W, 4 * p, R, s.linked);
  }

  /** Covering a further run R of linked, distinct Nodes extends a cover sequence, and uncovering R undoes it. */
  lemma CoverStep(cfg: Config, u: Dlx, V: seq<int>, R: seq<int>, VR: seq<int>)
    requires Shaped(cfg, u) && AllNodes(cfg, V) && VR == V + R
    requires ColumnsOk(cfg, CoverSeq(cfg, u, V)) && Distinct(R)
    requires forall j :: 0 <= j < |R| ==> R[j] in CoverSeq(cfg, u, V).linked
    ensures AllNodes(cfg, R) && AllNodes(cfg, VR)
    ensures CoverSeq(cfg, CoverSeq(cfg, u, V), R) == CoverSeq(cfg, u, VR)
    ensures UncoverSeq(cfg, CoverSeq(cfg, u, VR), R) == CoverSeq(cfg, u, V)
  {
    CoverSeqOk(cfg, CoverSeq(cfg, u, V), R);
    CoverSeqAppend(cfg, u, V, R);
  }


  /**
   * The same step seen from Constraint.uncover, where the header ring is
   * already back as it was before c was covered: uncovering row p after the
   * first p + 1 rows were covered from s leaves the first p covered.
   */
  lemma SweepUnrow(cfg: Config, s: Dlx, c: int, u: Dlx, W: seq<int>, F: seq<int>, p: int)
    requires Good(cfg, s) && IsHeader(cfg, c) && !s.covered[c]
    requires u == UnlinkHeader(cfg, s, c) && F == Filter(Members(cfg, c), s.linked) && W == Sweep(cfg, s, c)
    requires 0 <= p < |F|
    ensures |W| == 4 * |F| && IsNode(cfg, F[p]) && AllNodes(cfg, RowMates(cfg, F[p]))
    ensures AllNodes(cfg, W[..4 * p]) && AllNodes(cfg, W[..4 * (p + 1)])
    ensures UncoverSeq(cfg, CoverSeq(cfg, s, W[..4 * (p + 1)]), RowMates(cfg, F[p])) == CoverSeq(cfg, s, W[..4 * p])
  {
    SweepRow(cfg, s, c, u, W, F, p);
    UnlinkHeaderRing(cfg, s, c);
    UnlinkHeaderUndo(cfg, s, c);
    assert u.(left := s.left, right := s.right, covered := s.covered) == s;
    var R := RowMates(cfg, F[p]);
    CoverSeqHeaders(cfg, u, W[..4 * (p + 1)], s.left, s.right, s.covered);
    CoverSeqHeaders(cfg, u, W[..4 * p], s.left, s.right, s.covered);
    UncoverSeqHeaders(cfg, CoverSeq(cfg, u, W[..4 * (p + 1)]), R, s.left, s.right, s.covered);
  }

  /**
   * With the first p rows of the sweep of an open column c covered, column c
   * is still whole: the down link after row p - 1 (or c) reaches row p (or c),
   * and the up link from row p (or c) reaches row p - 1 (or c).
   */
  lemma SweepLinks(cfg: Config, s: Dlx, c: int, u: Dlx, W: seq<int>, F: seq<int>, p: int)
    requires Good(cfg, s) && IsHeader(cfg, c) && !s.covered[c]
    requires u == UnlinkHeader(cfg, s, c) && F == Filter(Members(cfg, c), s.linked) && W == Sweep(cfg, s, c)
    requires 0 <= p <= |F|
    ensures |W| == 4 * |F| && AllNodes(cfg, W[..4 * p]) && AllNodes(cfg, F)
    ensures Shaped(cfg, CoverSeq(cfg, u, W[..4 * p]))
    ensures CoverSeq(cfg, u, W[..4 * p]).down[if p == 0 then c else F[p - 1]] == if p < |F| then F[p] else c
    ensures CoverSeq(cfg, u, W[..4 * p]).up[if p == |F| then c else F[p]] == if p > 0 then F[p - 1] else c
  {
    ColumnMembers(cfg, s, c);
    MatesLength(cfg, F);
    SweepPrefix(cfg, s, c, u, W, 4 * p);
    var X := CoverSeq(cfg, u, W[..4 * p]);
    RingWalk(X.up, X.down, c, F, p);
  }

  /** The up links of the same states reached from s itself, where c was never unlinked. */
  lemma SweepUpLink(cfg: Config, s: Dlx, c: int, u: Dlx, W: seq<int>, F: seq<int>, p: int)
    requires Good(cfg, s) && IsHeader(cfg, c) && !s.covered[c]
    requires u == UnlinkHeader(cfg, s, c) && F == Filter(Members(cfg, c), s.linked) && W == Sweep(cfg, s, c)
    requires 0 <= p <= |F|
    ensures |W| == 4 * |F| && AllNodes(cfg, W[..4 * p]) && AllNodes(cfg, F)
    ensures CoverSeq(cfg, s, W[..4 * p]).up[if p == |F| then c else F[p]] == if p > 0 then F[p - 1] else c
  {
    SweepLinks(cfg, s, c, u, W, F, p);
    UnlinkHeaderRing(cfg, s, c);
    UnlinkHeaderUndo(cfg, s, c);
    assert u.(left := s.left, right := s.right, covered := s.covered) == s;
    CoverSeqHeaders(cfg, u, W[..4 * p], s.left, s.right, s.covered);
  }

  /** One step of Constraint.cover's column loop: covering row p extends the covered prefix, and column c then leads on to row p + 1 (or back to c). */
  lemma SweepDown(cfg: Config, s: Dlx, c: int, u: Dlx, W: seq<int>, F: seq<int>, p: int)
    requires Good(cfg, s) && IsHeader(cfg, c) && !s.covered[c]
    requires u == UnlinkHeader(cfg, s, c) && F == Filter(Members(cfg, c), s.linked) && W == Sweep(cfg, s, c)
    requires 0 <= p < |F|
    ensures |W| == 4 * |F| && IsNode(cfg, F[p]) && AllNodes(cfg, RowMates(cfg, F[p]))
    ensures AllNodes(cfg, W[..4 * p]) && AllNodes(cfg, W[..4 * (p + 1)])
    ensures CoverSeq(cfg, CoverSeq(cfg, u, W[..4 * p]), RowMates(cfg, F[p])) == CoverSeq(cfg, u, W[..4 * (p + 1)])
    ensures CoverSeq(cfg, u, W[..4 * (p + 1)]).down[F[p]] == if p + 1 < |F| then F[p + 1] else c
  {
    SweepRow(cfg, s, c, u, W, F, p);
    SweepLinks(cfg, s, c, u, W, F, p + 1);
  }

  /** One step of Constraint.uncover's column loop: uncovering row p shortens the covered prefix, and column c then leads up to row p - 1 (or back to c). */
  lemma SweepUp(cfg: Config, s: Dlx, c: int, u: Dlx, W: seq<int>, F: seq<int>, p: int)
    requires Good(cfg, s) && IsHeader(cfg, c) && !s.covered[c]
    requires u == UnlinkHeader(cfg, s, c) && F == Filter(Members(cfg, c), s.linked) && W == Sweep(cfg, s, c)
    requires 0 <= p < |F|
    ensures |W| == 4 * |F| && IsNode(cfg, F[p]) && AllNodes(cfg, RowMates(cfg, F[p]))
    ensures AllNodes(cfg, W[..4 * p]) && AllNodes(cfg, W[..4 * (p + 1)])
    ensures UncoverSeq(cfg, CoverSeq(cfg, s, W[..4 * (p + 1)]), RowMates(cfg, F[p])) == CoverSeq(cfg, s, W[..4 * p])
    ensures CoverSeq(cfg, s, W[..4 * p]).up[F[p]] == if p > 0 then F[p - 1] else c
  {
    SweepUnrow(cfg, s, c, u, W, F, p);
    SweepUpLink(cfg, s, c, u, W, F, p);
  }

  /**
   * The ends of the sweep of an open column c: covering all of it after
   * unlinking c is covering c, with nothing covered it is the state c was
   * unlinked from, and rows are intact throughout.
   */
  lemma SweepEnds(cfg: Config, s: Dlx, c: int, u: Dlx, W: seq<int>, F: seq<int>)
    requires Good(cfg, s) && IsHeader(cfg, c) && !s.covered[c]
    requires u == UnlinkHeader(cfg, s, c) && F == Filter(Members(cfg, c), s.linked) && W == Sweep(cfg, s, c)
    ensures |W| == 4 * |F| && AllNodes(cfg, W) && W[..4 * |F|] == W && W[..4 * 0] == []
    ensures CoverSeq(cfg, u, W) == CoverF(cfg, s, c)
    ensures RightRing(cfg, u.right) && LeftRing(cfg, s.left)
  {
    ColumnMembers(cfg, s, c);
    MatesLength(cfg, F);
    SweepNodes(cfg, s, c);
    UnlinkHeaderRing(cfg, s, c);
    UnlinkHeaderUndo(cfg, s, c);
  }

  /** Relinking c after covering it is the state with the whole sweep covered from s itself. */
  lemma SweepRelink(cfg: Config, s: Dlx, c: int, u: Dlx, W: seq<int>, F: seq<int>)
    requires Good(cfg, s) && IsHeader(cfg, c) && !s.covered[c]
    requires u == UnlinkHeader(cfg, s, c) && F == Filter(Members(cfg, c), s.linked) && W == Sweep(cfg, s, c)
    ensures AllNodes(cfg, W)
    ensures RelinkHeader(cfg, CoverF(cfg, s, c), c) == CoverSeq(cfg, s, W)
  {
    SweepNodes(cfg, s, c);
    UnlinkHeaderRing(cfg, s, c);
    UnlinkHeaderUndo(cfg, s, c);
    assert u.(left := s.left, right := s.right, covered := s.covered) == s;
    CoverSeqHeaders(cfg, u, W, s.left, s.right, s.covered);
    var X := CoverSeq(cfg, u, W);
    assert RelinkHeader(cfg, X, c) == X.(left := s.left, right := s.right, covered := s.covered);
  }
}
