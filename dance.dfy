/**
 * The link structure of the exact-cover matrix and what Node.cover_node,
 * Node.uncover_node, Constraint.cover, Constraint.uncover, Candidate.choose
 * and Candidate.unchoose do to it, as functions on a snapshot of the whole
 * arena, together with the invariant they keep and the lemmas saying that
 * each undo restores exactly the state before the matching do.
 */
module Dance {
  import opened Layout
  import opened Rings

  /**
   * A snapshot of the matrix: the left, right, up and down link of every arena
   * slot, the size and covered flag of every column (index 0 is the Root, whose
   * flag stays false), and the set of slots currently linked into their column.
   * The last component is bookkeeping of this model: the source knows it only
   * implicitly, through which slots can be reached from the column headers.
   */
  datatype Dlx = Dlx(left: seq<int>, right: seq<int>, up: seq<int>, down: seq<int>,
                     size: seq<int>, covered: seq<bool>, linked: set<int>)

  /** A link array with one entry per arena slot, each pointing into the arena. */
  predicate InArena(cfg: Config, a: seq<int>)
  {
    |a| == cfg.ArenaSize() && forall i :: 0 <= i < |a| ==> 0 <= a[i] < cfg.ArenaSize()
  }

  predicate Shaped(cfg: Config, s: Dlx)
  {
    && cfg.Valid()
    && InArena(cfg, s.left) && InArena(cfg, s.right) && InArena(cfg, s.up) && InArena(cfg, s.down)
    && |s.size| == cfg.NumHeaders() + 1 && |s.covered| == cfg.NumHeaders() + 1
    && (forall x :: x in s.linked ==> IsNode(cfg, x))
  }

  /** Column k exists and is not covered. */
  predicate Open(s: Dlx, k: int)
  {
    0 <= k < |s.covered| && !s.covered[k]
  }

  /** The vertical ring of column k: its header, then its linked members top to bottom. */
  function Column(cfg: Config, k: int, linked: set<int>): seq<int>
    requires cfg.Valid()
  {
    [k] + Filter(Members(cfg, k), linked)
  }

  /** Every column is a ring of up/down links and its size counts its linked members. */
  ghost predicate ColumnsOk(cfg: Config, s: Dlx)
    requires Shaped(cfg, s)
  {
    forall k :: 0 <= k <= cfg.NumHeaders() ==>
      Ring(s.up, s.down, Column(cfg, k, s.linked)) && s.size[k] == |Filter(Members(cfg, k), s.linked)|
  }

  /** The Constraint headers 1 .. 4n^2 in the order the Root's right links first met them. */
  function HeaderSeq(cfg: Config): seq<int>
  {
    seq(cfg.NumHeaders(), i => i + 1)
  }

  function Uncovered(cfg: Config, covered: seq<bool>): set<int>
  {
    set k | 1 <= k <= cfg.NumHeaders() && k < |covered| && !covered[k]
  }

  /** An open header is in the uncovered set, and a header in the uncovered set is open. */
  lemma OpenUncovered(cfg: Config, covered: seq<bool>, k: int)
    requires IsHeader(cfg, k) && k < |covered|
    ensures k in Uncovered(cfg, covered) <==> !covered[k]
  {
  }

  /** The horizontal ring of the Root and the Constraints that are not covered. */
  function HeaderRing(cfg: Config, s: Dlx): seq<int>
  {
    [0] + Filter(HeaderSeq(cfg), Uncovered(cfg, s.covered))
  }

  /** Candidate rows never change: head -> cel -> row -> col -> box -> head. */
  ghost predicate RowsStatic(cfg: Config, s: Dlx)
    requires Shaped(cfg, s)
  {
    forall x :: IsNode(cfg, x) ==> s.right[x] == RightOf(cfg, x) && s.left[x] == LeftOf(cfg, x)
  }

  /** Slot j of Candidate c: 0 is its head, 1 + f its Node in family f. */
  function Slot(cfg: Config, c: int, j: int): int
  {
    Head(cfg, c) + j
  }

  /** Candidate c is still available: all five of its slots linked, all four of its Constraints open. */
  ghost predicate Alive(cfg: Config, s: Dlx, c: int)
    requires cfg.Valid()
  {
    && (forall j :: 0 <= j < 5 ==> Slot(cfg, c, j) in s.linked)
    && (forall f :: 0 <= f < 4 ==> Open(s, ConsOf(cfg, c, f)))
  }

  /**
   * A slot linked into an open column belongs to an available Candidate: a
   * Candidate is either entirely present, or it was removed through a column
   * that is covered now.
   */
  ghost predicate Closed(cfg: Config, s: Dlx)
    requires cfg.Valid()
  {
    forall y :: y in s.linked && Open(s, ColOf(cfg, y)) ==> Alive(cfg, s, CandOf(cfg, y))
  }

  /** The invariant of a SudokuMatrix between operations. */
  ghost predicate Good(cfg: Config, s: Dlx)
  {
    && Shaped(cfg, s)
    && ColumnsOk(cfg, s)
    && Ring(s.left, s.right, HeaderRing(cfg, s))
    && !s.covered[0]
    && RowsStatic(cfg, s)
    && Closed(cfg, s)
  }

  // ---------------------------------------------------------------------------
  // Rows

  /** The row mates of x listed explicitly for each of the five positions x can hold. */
  lemma RowMatesShape(cfg: Config, x: int)
    requires cfg.Valid() && IsNode(cfg, x)
    ensures var h, s := x - SlotOf(cfg, x), SlotOf(cfg, x);
      && 0 <= s < 5
      && RowMates(cfg, x) == (if s == 0 then [h + 1, h + 2, h + 3, h + 4]
                              else if s == 1 then [h + 2, h + 3, h + 4, h]
                              else if s == 2 then [h + 3, h + 4, h, h + 1]
                              else if s == 3 then [h + 4, h, h + 1, h + 2]
                              else [h, h + 1, h + 2, h + 3])
  {
  }

  lemma RowMatesProps(cfg: Config, x: int)
    requires cfg.Valid() && IsNode(cfg, x)
    ensures |RowMates(cfg, x)| == 4 && Distinct(RowMates(cfg, x))
    ensures forall j :: 0 <= j < 4 ==>
      var y := RowMates(cfg, x)[j];
      IsNode(cfg, y) && y != x && CandOf(cfg, y) == CandOf(cfg, x) && SlotOf(cfg, y) == (SlotOf(cfg, x) + j + 1) % 5
  {
    var c, s := CandOf(cfg, x), SlotOf(cfg, x);
    SlotDecode(cfg, x);
    RowMatesShape(cfg, x);
    forall j | 0 <= j < 4
      ensures var y := RowMates(cfg, x)[j];
        IsNode(cfg, y) && y != x && CandOf(cfg, y) == c && SlotOf(cfg, y) == (s + j + 1) % 5
    {
      SlotRoundTrip(cfg, c, (s + j + 1) % 5);
    }
  }

  /** Every other slot of x's Candidate is one of x's row mates. */
  lemma RowMatesComplete(cfg: Config, x: int, y: int)
    requires cfg.Valid() && IsNode(cfg, x) && IsNode(cfg, y)
    requires CandOf(cfg, y) == CandOf(cfg, x) && y != x
    ensures y in RowMates(cfg, x)
  {
    SlotDecode(cfg, x);
    SlotDecode(cfg, y);
    RowMatesShape(cfg, x);
  }

  /** Two slots of the same Candidate in the same column are the same slot. */
  lemma SameCandSameColumn(cfg: Config, x: int, y: int)
    requires cfg.Valid() && IsNode(cfg, x) && IsNode(cfg, y)
    requires CandOf(cfg, y) == CandOf(cfg, x) && ColOf(cfg, x) == ColOf(cfg, y)
    ensures x == y
  {
    SlotDecode(cfg, x);
    SlotDecode(cfg, y);
    ColOfInRange(cfg, x);
    ColOfInRange(cfg, y);
    var c := CandOf(cfg, x);
    if SlotOf(cfg, x) != 0 {
      var f, g := SlotOf(cfg, x) - 1, SlotOf(cfg, y) - 1;
      ConstraintIdxInRange(cfg, f, c);
      ConstraintIdxInRange(cfg, g, c);
      HeaderRoundTrip(cfg, f, ConstraintIdx(cfg, f, c));
      HeaderRoundTrip(cfg, g, ConstraintIdx(cfg, g, c));
    }
  }

  /** The row mates of the slots ds, row after row. */
  function Mates(cfg: Config, ds: seq<int>): seq<int>
  {
    if |ds| == 0 then [] else Mates(cfg, ds[..|ds| - 1]) + RowMates(cfg, ds[|ds| - 1])
  }

  lemma {:induction false} MatesLength(cfg: Config, ds: seq<int>)
    ensures |Mates(cfg, ds)| == 4 * |ds|
  {
    if |ds| > 0 {
      MatesLength(cfg, ds[..|ds| - 1]);
    }
  }

  /** Each row mate in Mates(ds) comes from some row ds[i]. */
  lemma {:induction false} MateOrigin(cfg: Config, ds: seq<int>, y: int) returns (i: int)
    requires y in Mates(cfg, ds)
    ensures 0 <= i < |ds| && y in RowMates(cfg, ds[i])
  {
    var init := ds[..|ds| - 1];
    if y in RowMates(cfg, ds[|ds| - 1]) {
      i := |ds| - 1;
    } else {
      i := MateOrigin(cfg, init, y);
      assert ds[i] == init[i];
    }
  }

  /** ... and every row mate of every ds[i] is in Mates(ds). */
  lemma {:induction false} MatesContain(cfg: Config, ds: seq<int>, i: int, y: int)
    requires 0 <= i < |ds| && y in RowMates(cfg, ds[i])
    ensures y in Mates(cfg, ds)
  {
    var init := ds[..|ds| - 1];
    if i < |ds| - 1 {
      assert ds[i] == init[i];
      MatesContain(cfg, init, i, y);
    }
  }

  /** Rows of distinct Candidates have disjoint, duplicate-free mates. */
  lemma {:induction false} MatesDistinct(cfg: Config, ds: seq<int>)
    requires cfg.Valid()
    requires forall i :: 0 <= i < |ds| ==> IsNode(cfg, ds[i])
    requires forall i, j :: 0 <= i < j < |ds| ==> CandOf(cfg, ds[i]) != CandOf(cfg, ds[j])
    ensures Distinct(Mates(cfg, ds))
    ensures forall k :: 0 <= k < |Mates(cfg, ds)| ==> IsNode(cfg, Mates(cfg, ds)[k])
  {
    if |ds| > 0 {
      var init, d := ds[..|ds| - 1], ds[|ds| - 1];
      MatesDistinct(cfg, init);
      RowMatesProps(cfg, d);
      var M, R := Mates(cfg, init), RowMates(cfg, d);
      assert Mates(cfg, ds) == M + R;
      forall a, b | 0 <= a < |M| && 0 <= b < |R|
        ensures M[a] != R[b]
      {
        var y := M[a];
        var i := MateOrigin(cfg, init, y);
        RowMatesProps(cfg, init[i]);
        assert CandOf(cfg, y) == CandOf(cfg, init[i]);
        assert CandOf(cfg, R[b]) == CandOf(cfg, d);
      }
    }
  }

  // ---------------------------------------------------------------------------
  // Node.cover_node and Node.uncover_node

  /** cover_node: the Nodes above and below x skip it, and x's column shrinks by one. */
  function CoverNodeF(cfg: Config, s: Dlx, x: int): (t: Dlx)
    requires Shaped(cfg, s) && IsNode(cfg, x)
    ensures Shaped(cfg, t)
  {
    ColOfInRange(cfg, x);
    var k := ColOf(cfg, x);
    var down' := s.down[s.up[x] := s.down[x]];
    var up' := s.up[down'[x] := s.up[x]];
    s.(down := down', up := up', size := s.size[k := s.size[k] - 1], linked := s.linked - {x})
  }

  /** uncover_node: the Nodes below and above x point back at it, and x's column grows by one. */
  function UncoverNodeF(cfg: Config, s: Dlx, x: int): (t: Dlx)
    requires Shaped(cfg, s) && IsNode(cfg, x)
    ensures Shaped(cfg, t)
  {
    ColOfInRange(cfg, x);
    var k := ColOf(cfg, x);
    var up' := s.up[s.down[x] := x];
    var down' := s.down[up'[x] := x];
    s.(down := down', up := up', size := s.size[k := s.size[k] + 1], linked := s.linked + {x})
  }

  predicate AllNodes(cfg: Config, ws: seq<int>)
  {
    forall i :: 0 <= i < |ws| ==> IsNode(cfg, ws[i])
  }

  /** cover_node applied to ws[0], ws[1], ... in turn. */
  function CoverSeq(cfg: Config, s: Dlx, ws: seq<int>): (t: Dlx)
    requires Shaped(cfg, s) && AllNodes(cfg, ws)
    ensures Shaped(cfg, t) && t.left == s.left && t.right == s.right && t.covered == s.covered
    decreases |ws|
  {
    if |ws| == 0 then s else CoverNodeF(cfg, CoverSeq(cfg, s, ws[..|ws| - 1]), ws[|ws| - 1])
  }

  /** uncover_node applied to the last element of ws, then the one before, back to ws[0]. */
  function UncoverSeq(cfg: Config, s: Dlx, ws: seq<int>): (t: Dlx)
    requires Shaped(cfg, s) && AllNodes(cfg, ws)
    ensures Shaped(cfg, t) && t.left == s.left && t.right == s.right && t.covered == s.covered
    decreases |ws|
  {
    if |ws| == 0 then s else UncoverSeq(cfg, UncoverNodeF(cfg, s, ws[|ws| - 1]), ws[..|ws| - 1])
  }

  /** The members of column k's ring are its header and Nodes of that column. */
  lemma ColumnMember(cfg: Config, k: int, linked: set<int>, i: int)
    requires cfg.Valid() && 0 <= k <= cfg.NumHeaders() && 0 <= i < |Column(cfg, k, linked)|
    ensures var y := Column(cfg, k, linked)[i];
      if i == 0 then y == k else IsNode(cfg, y) && ColOf(cfg, y) == k && y in linked
  {
    if i > 0 {
      var F := Filter(Members(cfg, k), linked);
      var y := F[i - 1];
      assert Column(cfg, k, linked)[i] == y;
      FilterMember(Members(cfg, k), linked);
      assert y in Members(cfg, k);
      var m :| 0 <= m < |Members(cfg, k)| && Members(cfg, k)[m] == y;
      MembersInColumn(cfg, k, m);
    }
  }

  lemma MembersIncreasingAll(cfg: Config, k: int)
    requires cfg.Valid() && 0 <= k <= cfg.NumHeaders()
    ensures Increasing(Members(cfg, k))
  {
    forall i, j | 0 <= i < j < |Members(cfg, k)|
      ensures Members(cfg, k)[i] < Members(cfg, k)[j]
    {
      MembersIncreasing(cfg, k, i, j);
    }
  }

  /** A column's ring is strictly increasing: header first, then members in arena order. */
  lemma ColumnIncreasing(cfg: Config, k: int, linked: set<int>)
    requires cfg.Valid() && 0 <= k <= cfg.NumHeaders()
    ensures Increasing(Column(cfg, k, linked)) && Distinct(Column(cfg, k, linked))
  {
    MembersIncreasingAll(cfg, k);
    FilterIncreasing(Members(cfg, k), linked);
    var C := Column(cfg, k, linked);
    forall i | 0 < i < |C|
      ensures C[0] < C[i]
    {
      ColumnMember(cfg, k, linked, i);
    }
  }

  /** Rings of different columns share no element. */
  lemma ColumnsDisjoint(cfg: Config, k1: int, L1: set<int>, i: int, k2: int, L2: set<int>, j: int)
    requires cfg.Valid() && 0 <= k1 <= cfg.NumHeaders() && 0 <= k2 <= cfg.NumHeaders() && k1 != k2
    requires 0 <= i < |Column(cfg, k1, L1)| && 0 <= j < |Column(cfg, k2, L2)|
    ensures Column(cfg, k1, L1)[i] != Column(cfg, k2, L2)[j]
  {
    ColumnMember(cfg, k1, L1, i);
    ColumnMember(cfg, k2, L2, j);
  }

  /** No slot belongs to two columns. */
  lemma MembersDisjoint(cfg: Config, k1: int, k2: int, y: int)
    requires cfg.Valid() && 0 <= k1 <= cfg.NumHeaders() && 0 <= k2 <= cfg.NumHeaders() && k1 != k2
    requires y in Members(cfg, k1)
    ensures y !in Members(cfg, k2)
  {
    var i :| 0 <= i < |Members(cfg, k1)| && Members(cfg, k1)[i] == y;
    MembersInColumn(cfg, k1, i);
    if y in Members(cfg, k2) {
      var j :| 0 <= j < |Members(cfg, k2)| && Members(cfg, k2)[j] == y;
      MembersInColumn(cfg, k2, j);
    }
  }

  /** Unlinking member x from its own column's ring removes exactly x and one from its count. */
  lemma ColumnRemoveOwn(cfg: Config, up: seq<int>, down: seq<int>, k: int, L: set<int>, x: int) returns (iu: int, id: int)
    requires cfg.Valid() && 0 <= k <= cfg.NumHeaders() && x in L && x in Members(cfg, k)
    requires Ring(up, down, Column(cfg, k, L)) && 0 <= x < |up| && x < |down|
    ensures 0 <= up[x] < |down| && 0 <= down[x] < |up|
    ensures 0 <= iu < |Column(cfg, k, L)| && Column(cfg, k, L)[iu] == up[x]
    ensures 0 <= id < |Column(cfg, k, L)| && Column(cfg, k, L)[id] == down[x]
    ensures up[x] != x && down[x] != x && down[up[x]] == x && up[down[x]] == x
    ensures Ring(up[down[x] := up[x]], down[up[x] := down[x]], Column(cfg, k, L - {x}))
    ensures |Filter(Members(cfg, k), L - {x})| == |Filter(Members(cfg, k), L)| - 1
  {
    MembersIncreasingAll(cfg, k);
    var A, B := FilterSplit(Members(cfg, k), L, x);
    var C := Column(cfg, k, L);
    assert C == ([k] + A) + [x] + B;
    assert Column(cfg, k, L - {x}) == ([k] + A) + B;
    ColumnIncreasing(cfg, k, L);
    RingRemove(up, down, [k] + A, x, B);
    iu := |A|;
    assert C[iu] == ([k] + A)[|A|];
    if |B| > 0 {
      id := |A| + 2;
      assert C[id] == B[0];
    } else {
      id := 0;
    }
  }

  /** Unlinking a Node of another column leaves column k's ring and count alone. */
  lemma ColumnRemoveOther(cfg: Config, up: seq<int>, down: seq<int>, k: int, kx: int, L: set<int>, x: int, iu: int, id: int)
    requires cfg.Valid() && 0 <= k <= cfg.NumHeaders() && 0 <= kx <= cfg.NumHeaders() && k != kx
    requires x in Members(cfg, kx)
    requires Ring(up, down, Column(cfg, k, L)) && 0 <= x < |up| && x < |down|
    requires 0 <= up[x] < |down| && 0 <= down[x] < |up|
    requires 0 <= iu < |Column(cfg, kx, L)| && Column(cfg, kx, L)[iu] == up[x]
    requires 0 <= id < |Column(cfg, kx, L)| && Column(cfg, kx, L)[id] == down[x]
    ensures Filter(Members(cfg, k), L - {x}) == Filter(Members(cfg, k), L)
    ensures Ring(up[down[x] := up[x]], down[up[x] := down[x]], Column(cfg, k, L - {x}))
  {
    MembersDisjoint(cfg, kx, k, x);
    FilterSame(Members(cfg, k), L, L - {x});
    var Ck := Column(cfg, k, L);
    var up', down' := up[down[x] := up[x]], down[up[x] := down[x]];
    forall i | 0 <= i < |Ck|
      ensures up'[Ck[i]] == up[Ck[i]] && down'[Ck[i]] == down[Ck[i]]
    {
      ColumnsDisjoint(cfg, k, L, i, kx, L, iu);
      ColumnsDisjoint(cfg, k, L, i, kx, L, id);
    }
    RingFrame(up, down, up', down', Ck);
  }

  /** uncover_node undoes cover_node whenever x's neighbours point back at it. */
  lemma CoverNodeUndo(cfg: Config, s: Dlx, x: int)
    requires Shaped(cfg, s) && IsNode(cfg, x) && x in s.linked
    requires s.down[s.up[x]] == x && s.up[s.down[x]] == x
    ensures UncoverNodeF(cfg, CoverNodeF(cfg, s, x), x) == s
  {
    var t := CoverNodeF(cfg, s, x);
    var r := UncoverNodeF(cfg, t, x);
    assert r.up == s.up;
    assert r.down == s.down;
    assert r.linked == s.linked;
    assert r.size == s.size;
  }

  /**
   * Covering a linked Node takes exactly it out of its column's ring and
   * leaves every other column alone; uncovering it right away undoes that.
   */
  lemma CoverNodeStep(cfg: Config, s: Dlx, x: int)
    requires Shaped(cfg, s) && ColumnsOk(cfg, s) && x in s.linked
    ensures ColumnsOk(cfg, CoverNodeF(cfg, s, x))
    ensures UncoverNodeF(cfg, CoverNodeF(cfg, s, x), x) == s
  {
    assert IsNode(cfg, x);
    var t := CoverNodeF(cfg, s, x);
    ColOfInRange(cfg, x);
    MemberOfOwnColumn(cfg, x);
    var kx := ColOf(cfg, x);
    var mx := Members(cfg, kx)[MemberIndex(cfg, x)];
    assert mx in Members(cfg, kx);
    assert Ring(s.up, s.down, Column(cfg, kx, s.linked));
    var iu, id := ColumnRemoveOwn(cfg, s.up, s.down, kx, s.linked, x);
    assert t.down == s.down[s.up[x] := s.down[x]] && t.up == s.up[s.down[x] := s.up[x]];
    forall k | 0 <= k <= cfg.NumHeaders()
      ensures Ring(t.up, t.down, Column(cfg, k, t.linked)) && t.size[k] == |Filter(Members(cfg, k), t.linked)|
    {
      if k != kx {
        assert Ring(s.up, s.down, Column(cfg, k, s.linked));
        ColumnRemoveOther(cfg, s.up, s.down, k, kx, s.linked, x, iu, id);
      }
    }
    CoverNodeUndo(cfg, s, x);
  }

  /** Covering distinct linked Nodes one after another keeps every column a ring; uncovering them in reverse restores the state. */
  lemma {:induction false} CoverSeqOk(cfg: Config, s: Dlx, ws: seq<int>)
    requires Shaped(cfg, s) && ColumnsOk(cfg, s) && Distinct(ws)
    requires forall i :: 0 <= i < |ws| ==> ws[i] in s.linked
    ensures AllNodes(cfg, ws)
    ensures ColumnsOk(cfg, CoverSeq(cfg, s, ws))
    ensures CoverSeq(cfg, s, ws).linked == s.linked - Elems(ws)
    ensures UncoverSeq(cfg, CoverSeq(cfg, s, ws), ws) == s
    decreases |ws|
  {
    if |ws| > 0 {
      var init, w := ws[..|ws| - 1], ws[|ws| - 1];
      forall i | 0 <= i < |init|
        ensures init[i] in s.linked
      {
        assert init[i] == ws[i];
      }
      CoverSeqOk(cfg, s, init);
      var t0 := CoverSeq(cfg, s, init);
      assert w !in init by {
        forall i | 0 <= i < |init|
          ensures init[i] != w
        {
          assert init[i] == ws[i];
        }
      }
      ElemsMember(init);
      CoverNodeStep(cfg, t0, w);
      var t := CoverSeq(cfg, s, ws);
      assert t == CoverNodeF(cfg, t0, w);
      assert UncoverSeq(cfg, t, ws) == UncoverSeq(cfg, UncoverNodeF(cfg, t, w), init);
      assert Elems(ws) == Elems(init) + {w};
      assert t.linked == (s.linked - Elems(init)) - {w};
    }
  }

  /** cover_node never reads or writes the horizontal links or the covered flags. */
  lemma {:induction false} CoverSeqHeaders(cfg: Config, s: Dlx, ws: seq<int>, left: seq<int>, right: seq<int>, covered: seq<bool>)
    requires Shaped(cfg, s) && AllNodes(cfg, ws)
    requires InArena(cfg, left) && InArena(cfg, right) && |covered| == cfg.NumHeaders() + 1
    ensures Shaped(cfg, s.(left := left, right := right, covered := covered))
    ensures CoverSeq(cfg, s.(left := left, right := right, covered := covered), ws)
         == CoverSeq(cfg, s, ws).(left := left, right := right, covered := covered)
    decreases |ws|
  {
    if |ws| > 0 {
      var init, w := ws[..|ws| - 1], ws[|ws| - 1];
      CoverSeqHeaders(cfg, s, init, left, right, covered);
      var t := CoverSeq(cfg, s, init);
      assert CoverNodeF(cfg, t.(left := left, right := right, covered := covered), w)
          == CoverNodeF(cfg, t, w).(left := left, right := right, covered := covered);
    }
  }

  /** uncover_node never reads or writes the horizontal links or the covered flags. */
  lemma {:induction false} UncoverSeqHeaders(cfg: Config, s: Dlx, ws: seq<int>, left: seq<int>, right: seq<int>, covered: seq<bool>)
    requires Shaped(cfg, s) && AllNodes(cfg, ws)
    requires InArena(cfg, left) && InArena(cfg, right) && |covered| == cfg.NumHeaders() + 1
    ensures Shaped(cfg, s.(left := left, right := right, covered := covered))
    ensures UncoverSeq(cfg, s.(left := left, right := right, covered := covered), ws)
         == UncoverSeq(cfg, s, ws).(left := left, right := right, covered := covered)
    decreases |ws|
  {
    if |ws| > 0 {
      var init, w := ws[..|ws| - 1], ws[|ws| - 1];
      var s' := s.(left := left, right := right, covered := covered);
      assert UncoverNodeF(cfg, s', w) == UncoverNodeF(cfg, s, w).(left := left, right := right, covered := covered);
      UncoverSeqHeaders(cfg, UncoverNodeF(cfg, s, w), init, left, right, covered);
    }
  }

  // ---------------------------------------------------------------------------
  // The header ring

  /** Constraint.cover's first step: the headers left and right of c skip it, and c is flagged covered. */
  function UnlinkHeader(cfg: Config, s: Dlx, c: int): (t: Dlx)
    requires Shaped(cfg, s) && IsHeader(cfg, c)
    ensures Shaped(cfg, t) && t.up == s.up && t.down == s.down && t.size == s.size && t.linked == s.linked
    ensures t.covered == s.covered[c := true]
  {
    var right' := s.right[s.left[c] := s.right[c]];
    var left' := s.left[right'[c] := s.left[c]];
    s.(left := left', right := right', covered := s.covered[c := true])
  }

  /** Constraint.uncover's first step: the headers right and left of c point back at it, and c is flagged uncovered. */
  function RelinkHeader(cfg: Config, s: Dlx, c: int): (t: Dlx)
    requires Shaped(cfg, s) && IsHeader(cfg, c)
    ensures Shaped(cfg, t) && t.up == s.up && t.down == s.down && t.size == s.size && t.linked == s.linked
    ensures t.covered == s.covered[c := false]
  {
    var left' := s.left[s.right[c] := c];
    var right' := s.right[left'[c] := c];
    s.(left := left', right := right', covered := s.covered[c := false])
  }

  lemma HeaderSeqIncreasing(cfg: Config)
    ensures Increasing(HeaderSeq(cfg))
  {
  }

  /** The header ring lists the Root and then uncovered headers in increasing order. */
  lemma HeaderRingProps(cfg: Config, s: Dlx)
    ensures Increasing(HeaderRing(cfg, s)) && Distinct(HeaderRing(cfg, s))
    ensures forall i :: 0 <= i < |HeaderRing(cfg, s)| ==> 0 <= HeaderRing(cfg, s)[i] <= cfg.NumHeaders()
  {
    var H, U := HeaderSeq(cfg), Uncovered(cfg, s.covered);
    HeaderSeqIncreasing(cfg);
    FilterIncreasing(H, U);
    FilterMember(H, U);
    var F := Filter(H, U);
    forall i | 0 <= i < |F|
      ensures 1 <= F[i] <= cfg.NumHeaders()
    {
      var y := F[i];
      assert y in F;
      assert y in H;
    }
  }

  /** Unlinking an uncovered header takes exactly it out of the header ring. */
  lemma UnlinkHeaderRing(cfg: Config, s: Dlx, c: int)
    requires Shaped(cfg, s) && IsHeader(cfg, c) && !s.covered[c]
    requires Ring(s.left, s.right, HeaderRing(cfg, s))
    ensures Ring(UnlinkHeader(cfg, s, c).left, UnlinkHeader(cfg, s, c).right, HeaderRing(cfg, UnlinkHeader(cfg, s, c)))
    ensures Uncovered(cfg, UnlinkHeader(cfg, s, c).covered) == Uncovered(cfg, s.covered) - {c}
    ensures 0 <= s.left[c] <= cfg.NumHeaders() && 0 <= s.right[c] <= cfg.NumHeaders()
    ensures s.left[c] < |s.right| && s.right[c] < |s.left|
    ensures s.left[c] != c && s.right[c] != c && s.left[s.right[c]] == c && s.right[s.left[c]] == c
  {
    var U := Uncovered(cfg, s.covered);
    var H := HeaderSeq(cfg);
    assert H[c - 1] == c;
    HeaderSeqIncreasing(cfg);
    var A, B := FilterSplit(H, U, c);
    var P, r := [0] + A, HeaderRing(cfg, s);
    assert r == P + [c] + B;
    HeaderRingProps(cfg, s);
    ArenaBounds(cfg);
    RingRemove(s.left, s.right, P, c, B);
    var t := UnlinkHeader(cfg, s, c);
    assert Uncovered(cfg, t.covered) == U - {c};
    assert HeaderRing(cfg, t) == P + B;
    assert t.left == s.left[s.right[c] := s.left[c]];
    assert r[|A|] == P[|A|] == s.left[c];
    if |B| > 0 {
      assert r[|A| + 2] == B[0] == s.right[c];
    } else {
      assert r[0] == P[0] == s.right[c];
    }
  }

  /** Relinking a header right after unlinking it restores the state, and neither touches a Candidate's row. */
  lemma UnlinkHeaderUndo(cfg: Config, s: Dlx, c: int)
    requires Shaped(cfg, s) && IsHeader(cfg, c) && !s.covered[c]
    requires s.left[c] != c && s.left[s.right[c]] == c && s.right[s.left[c]] == c
    requires s.left[c] <= cfg.NumHeaders() && s.right[c] <= cfg.NumHeaders()
    ensures RelinkHeader(cfg, UnlinkHeader(cfg, s, c), c) == s
    ensures forall x :: IsNode(cfg, x) ==>
      UnlinkHeader(cfg, s, c).left[x] == s.left[x] && UnlinkHeader(cfg, s, c).right[x] == s.right[x]
  {
    var t := UnlinkHeader(cfg, s, c);
    assert t.left == s.left[s.right[c] := s.left[c]];
    var r := RelinkHeader(cfg, t, c);
    assert r.left == s.left;
    assert r.right == s.right;
    assert r.covered == s.covered;
  }

  // ---------------------------------------------------------------------------
  // Constraint.cover and Constraint.uncover

  /** The header of the family-f Constraint (cel, row, col, box) that Candidate c satisfies. */
  function ConsOf(cfg: Config, c: int, f: int): int
    requires cfg.Valid()
  {
    Header(f, ConstraintIdx(cfg, f, c))
  }

  lemma ConsOfProps(cfg: Config, c: int, f: int)
    requires cfg.Valid() && 0 <= c < cfg.NumCandidates() && 0 <= f < 4
    ensures IsHeader(cfg, ConsOf(cfg, c, f)) && HeaderFamily(ConsOf(cfg, c, f)) == f
  {
    ConstraintIdxInRange(cfg, f, c);
    HeaderRoundTrip(cfg, f, ConstraintIdx(cfg, f, c));
  }

  /** Slot j of Candidate c: a slot of c, in the Root's column for j = 0, in c's family j - 1 Constraint otherwise. */
  lemma SlotFacts(cfg: Config, c: int, j: int)
    requires cfg.Valid() && 0 <= c < cfg.NumCandidates() && 0 <= j < 5
    ensures IsNode(cfg, Slot(cfg, c, j)) && CandOf(cfg, Slot(cfg, c, j)) == c && SlotOf(cfg, Slot(cfg, c, j)) == j
    ensures ColOf(cfg, Slot(cfg, c, j)) == if j == 0 then 0 else ConsOf(cfg, c, j - 1)
  {
    SlotRoundTrip(cfg, c, j);
  }

  /** The Nodes Constraint.cover unlinks: the row mates of each linked member of column c, top to bottom. */
  function Sweep(cfg: Config, s: Dlx, c: int): seq<int>
    requires cfg.Valid() && 0 <= c <= cfg.NumHeaders()
  {
    Mates(cfg, Filter(Members(cfg, c), s.linked))
  }

  lemma {:induction false} MatesNodes(cfg: Config, ds: seq<int>)
    requires cfg.Valid() && forall i :: 0 <= i < |ds| ==> IsNode(cfg, ds[i])
    ensures AllNodes(cfg, Mates(cfg, ds))
  {
    if |ds| > 0 {
      var init := ds[..|ds| - 1];
      assert forall i :: 0 <= i < |init| ==> init[i] == ds[i];
      MatesNodes(cfg, init);
      RowMatesProps(cfg, ds[|ds| - 1]);
    }
  }

  /** The linked members of column c, with what Closed says about them when c is open. */
  lemma ColumnMembers(cfg: Config, s: Dlx, c: int)
    requires cfg.Valid() && 0 <= c <= cfg.NumHeaders()
    ensures Increasing(Filter(Members(cfg, c), s.linked))
    ensures forall i :: 0 <= i < |Filter(Members(cfg, c), s.linked)| ==>
      var y := Filter(Members(cfg, c), s.linked)[i];
      IsNode(cfg, y) && ColOf(cfg, y) == c && y in s.linked && y in Members(cfg, c)
  {
    var F := Filter(Members(cfg, c), s.linked);
    MembersIncreasingAll(cfg, c);
    FilterIncreasing(Members(cfg, c), s.linked);
    FilterMember(Members(cfg, c), s.linked);
    forall i | 0 <= i < |F|
      ensures IsNode(cfg, F[i]) && ColOf(cfg, F[i]) == c && F[i] in s.linked && F[i] in Members(cfg, c)
    {
      var y := F[i];
      assert y in F;
      var m :| 0 <= m < |Members(cfg, c)| && Members(cfg, c)[m] == y;
      MembersInColumn(cfg, c, m);
    }
  }

  lemma SweepNodes(cfg: Config, s: Dlx, c: int)
    requires cfg.Valid() && 0 <= c <= cfg.NumHeaders()
    ensures AllNodes(cfg, Sweep(cfg, s, c))
  {
    ColumnMembers(cfg, s, c);
    MatesNodes(cfg, Filter(Members(cfg, c), s.linked));
  }

  /**
   * Constraint.cover: nothing when c is already covered; otherwise unlink c from
   * the header ring and cover_node every row mate of every Node under c.
   */
  function CoverF(cfg: Config, s: Dlx, c: int): (t: Dlx)
    requires Shaped(cfg, s) && IsHeader(cfg, c)
    ensures Shaped(cfg, t)
  {
    if s.covered[c] then s
    else
      SweepNodes(cfg, s, c);
      CoverSeq(cfg, UnlinkHeader(cfg, s, c), Sweep(cfg, s, c))
  }

  /**
   * Constraint.uncover: nothing when c is not covered; otherwise relink c into
   * the header ring and uncover_node the same Nodes, bottom row first and each
   * row right to left.
   */
  function UncoverF(cfg: Config, s: Dlx, c: int): (t: Dlx)
    requires Shaped(cfg, s) && IsHeader(cfg, c)
    ensures Shaped(cfg, t)
  {
    if !s.covered[c] then s
    else
      SweepNodes(cfg, s, c);
      UncoverSeq(cfg, RelinkHeader(cfg, s, c), Sweep(cfg, s, c))
  }

  /** The Nodes covering an open column c unlinks are distinct, linked, and outside column c. */
  lemma SweepProps(cfg: Config, s: Dlx, c: int)
    requires Shaped(cfg, s) && Closed(cfg, s) && IsHeader(cfg, c) && !s.covered[c]
    ensures Distinct(Sweep(cfg, s, c))
    ensures forall i :: 0 <= i < |Sweep(cfg, s, c)| ==>
      Sweep(cfg, s, c)[i] in s.linked && Sweep(cfg, s, c)[i] !in Members(cfg, c)
  {
    var F := Filter(Members(cfg, c), s.linked);
    var W := Sweep(cfg, s, c);
    ColumnMembers(cfg, s, c);
    forall i, j | 0 <= i < j < |F|
      ensures CandOf(cfg, F[i]) != CandOf(cfg, F[j])
    {
      if CandOf(cfg, F[i]) == CandOf(cfg, F[j]) {
        SameCandSameColumn(cfg, F[i], F[j]);
      }
    }
    MatesDistinct(cfg, F);
    forall k | 0 <= k < |W|
      ensures W[k] in s.linked && W[k] !in Members(cfg, c)
    {
      var y := W[k];
      assert y in W;
      var i := MateOrigin(cfg, F, y);
      MateOfOpenColumn(cfg, s, c, F[i], y);
    }
  }

  /** A row mate of a linked Node in an open column c is linked and lies outside column c. */
  lemma MateOfOpenColumn(cfg: Config, s: Dlx, c: int, x: int, y: int)
    requires Shaped(cfg, s) && Closed(cfg, s) && IsHeader(cfg, c) && !s.covered[c]
    requires IsNode(cfg, x) && ColOf(cfg, x) == c && x in s.linked && y in RowMates(cfg, x)
    ensures y in s.linked && y !in Members(cfg, c)
  {
    RowMatesProps(cfg, x);
    var cy := CandOf(cfg, y);
    assert Open(s, ColOf(cfg, x));
    assert Alive(cfg, s, cy);
    SlotDecode(cfg, y);
    assert Slot(cfg, cy, SlotOf(cfg, y)) in s.linked;
    if y in Members(cfg, c) {
      var m :| 0 <= m < |Members(cfg, c)| && Members(cfg, c)[m] == y;
      MembersInColumn(cfg, c, m);
      SameCandSameColumn(cfg, x, y);
    }
  }

  /** A Candidate that survives covering c has none of its Constraints equal to c. */
  lemma SurvivorAvoids(cfg: Config, s: Dlx, c: int, y: int, f: int)
    requires Shaped(cfg, s) && IsHeader(cfg, c) && IsNode(cfg, y) && 0 <= f < 4
    requires Alive(cfg, s, CandOf(cfg, y)) && ColOf(cfg, y) != c
    requires y !in Sweep(cfg, s, c)
    ensures ConsOf(cfg, CandOf(cfg, y), f) != c
  {
    var cy := CandOf(cfg, y);
    SlotDecode(cfg, y);
    if ConsOf(cfg, cy, f) == c {
      var z := Slot(cfg, cy, f + 1);
      SlotFacts(cfg, cy, f + 1);
      assert z in s.linked;
      MemberOfOwnColumn(cfg, z);
      var F := Filter(Members(cfg, c), s.linked);
      FilterMember(Members(cfg, c), s.linked);
      var mz := Members(cfg, c)[MemberIndex(cfg, z)];
      assert mz in Members(cfg, c);
      assert z in F;
      var i :| 0 <= i < |F| && F[i] == z;
      RowMatesComplete(cfg, z, y);
      MatesContain(cfg, F, i, y);
      assert false;
    }
  }

  /** ... and none of its slots is among the Nodes covering c unlinks. */
  lemma SurvivorUntouched(cfg: Config, s: Dlx, c: int, cy: int, j: int)
    requires Shaped(cfg, s) && IsHeader(cfg, c) && 0 <= cy < cfg.NumCandidates() && 0 <= j < 5
    requires forall f :: 0 <= f < 4 ==> ConsOf(cfg, cy, f) != c
    ensures Slot(cfg, cy, j) !in Sweep(cfg, s, c)
  {
    var z := Slot(cfg, cy, j);
    SlotFacts(cfg, cy, j);
    var F := Filter(Members(cfg, c), s.linked);
    if z in Sweep(cfg, s, c) {
      var i := MateOrigin(cfg, F, z);
      ColumnMembers(cfg, s, c);
      var x := F[i];
      RowMatesProps(cfg, x);
      SlotDecode(cfg, x);
      ColOfInRange(cfg, x);
      SlotFacts(cfg, cy, SlotOf(cfg, x));
      assert false;
    }
  }

  /** Covering an open column c keeps Closed: every Candidate still reachable in an open column stays whole. */
  lemma ClosedAfterCover(cfg: Config, s: Dlx, c: int, t: Dlx)
    requires Shaped(cfg, s) && Shaped(cfg, t) && Closed(cfg, s) && IsHeader(cfg, c) && !s.covered[c]
    requires t.linked == s.linked - Elems(Sweep(cfg, s, c)) && t.covered == s.covered[c := true]
    ensures Closed(cfg, t)
  {
    ElemsMember(Sweep(cfg, s, c));
    forall y | y in t.linked && Open(t, ColOf(cfg, y))
      ensures Alive(cfg, t, CandOf(cfg, y))
    {
      var cy := CandOf(cfg, y);
      ColOfInRange(cfg, y);
      SlotDecode(cfg, y);
      assert Open(s, ColOf(cfg, y));
      assert Alive(cfg, s, cy);
      forall f | 0 <= f < 4
        ensures ConsOf(cfg, cy, f) != c
      {
        SurvivorAvoids(cfg, s, c, y, f);
      }
      forall j | 0 <= j < 5
        ensures Slot(cfg, cy, j) in t.linked
      {
        SurvivorUntouched(cfg, s, c, cy, j);
      }
    }
  }

  /**
   * Covering an open column c keeps the invariant, flags exactly c as covered,
   * unlinks exactly the Nodes of its sweep, leaves column c itself intact, and
   * uncovering c right after restores the state before.
   */
  lemma CoverGood(cfg: Config, s: Dlx, c: int)
    requires Good(cfg, s) && IsHeader(cfg, c) && !s.covered[c]
    ensures Good(cfg, CoverF(cfg, s, c))
    ensures CoverF(cfg, s, c).covered == s.covered[c := true]
    ensures Uncovered(cfg, CoverF(cfg, s, c).covered) == Uncovered(cfg, s.covered) - {c}
    ensures CoverF(cfg, s, c).linked == s.linked - Elems(Sweep(cfg, s, c))
    ensures Filter(Members(cfg, c), CoverF(cfg, s, c).linked) == Filter(Members(cfg, c), s.linked)
    ensures UncoverF(cfg, CoverF(cfg, s, c), c) == s
  {
    var s1 := UnlinkHeader(cfg, s, c);
    var W := Sweep(cfg, s, c);
    SweepNodes(cfg, s, c);
    SweepProps(cfg, s, c);
    assert ColumnsOk(cfg, s1);
    CoverSeqOk(cfg, s1, W);
    var t := CoverSeq(cfg, s1, W);
    assert t == CoverF(cfg, s, c);
    UnlinkHeaderRing(cfg, s, c);
    UnlinkHeaderUndo(cfg, s, c);
    ClosedAfterCover(cfg, s, c, t);
    ElemsMember(W);
    FilterSame(Members(cfg, c), t.linked, s.linked);
    assert Sweep(cfg, t, c) == W;
    var r := RelinkHeader(cfg, s1, c);
    assert RelinkHeader(cfg, t, c) == t.(left := r.left, right := r.right, covered := r.covered);
    UncoverSeqHeaders(cfg, t, W, r.left, r.right, r.covered);
  }

  /** Uncovering an open column c right after covering it restores the state. */
  lemma CoverUndo(cfg: Config, s: Dlx, c: int)
    requires Good(cfg, s) && IsHeader(cfg, c) && !s.covered[c]
    ensures UncoverF(cfg, CoverF(cfg, s, c), c) == s
  {
    CoverGood(cfg, s, c);
  }

  // ---------------------------------------------------------------------------
  // Candidate.choose and Candidate.unchoose

  /** A Candidate's four Constraints in the order of its row ring: cel, row, col, box. */
  function ConsList(cfg: Config, c: int): seq<int>
    requires cfg.Valid()
  {
    [ConsOf(cfg, c, CEL), ConsOf(cfg, c, ROW), ConsOf(cfg, c, COL), ConsOf(cfg, c, BOX)]
  }

  predicate AllHeaders(cfg: Config, ks: seq<int>)
  {
    forall i :: 0 <= i < |ks| ==> IsHeader(cfg, ks[i])
  }

  /** The four Constraints of a Candidate are four distinct headers, one per family. */
  lemma ConsListProps(cfg: Config, c: int)
    requires cfg.Valid() && 0 <= c < cfg.NumCandidates()
    ensures |ConsList(cfg, c)| == 4 && AllHeaders(cfg, ConsList(cfg, c)) && Distinct(ConsList(cfg, c))
    ensures forall f :: 0 <= f < 4 ==> ConsList(cfg, c)[f] == ConsOf(cfg, c, f)
  {
    ConsOfProps(cfg, c, 0);
    ConsOfProps(cfg, c, 1);
    ConsOfProps(cfg, c, 2);
    ConsOfProps(cfg, c, 3);
  }

  /** Constraint.cover applied to ks[0], ks[1], ... in turn. */
  function CoverList(cfg: Config, s: Dlx, ks: seq<int>): (t: Dlx)
    requires Shaped(cfg, s) && AllHeaders(cfg, ks)
    ensures Shaped(cfg, t)
    decreases |ks|
  {
    if |ks| == 0 then s else CoverF(cfg, CoverList(cfg, s, ks[..|ks| - 1]), ks[|ks| - 1])
  }

  /** Constraint.uncover applied to the last element of ks, then the one before, back to ks[0]. */
  function UncoverList(cfg: Config, s: Dlx, ks: seq<int>): (t: Dlx)
    requires Shaped(cfg, s) && AllHeaders(cfg, ks)
    ensures Shaped(cfg, t)
    decreases |ks|
  {
    if |ks| == 0 then s else UncoverList(cfg, UncoverF(cfg, s, ks[|ks| - 1]), ks[..|ks| - 1])
  }

  /** Candidate.choose: cover the Candidate's Constraints in ring order. */
  function ChooseF(cfg: Config, s: Dlx, c: int): (t: Dlx)
    requires Shaped(cfg, s) && 0 <= c < cfg.NumCandidates()
    ensures Shaped(cfg, t)
  {
    ConsListProps(cfg, c);
    CoverList(cfg, s, ConsList(cfg, c))
  }

  /** Candidate.unchoose: uncover the Candidate's Constraints in reverse order. */
  function UnchooseF(cfg: Config, s: Dlx, c: int): (t: Dlx)
    requires Shaped(cfg, s) && 0 <= c < cfg.NumCandidates()
    ensures Shaped(cfg, t)
  {
    ConsListProps(cfg, c);
    UncoverList(cfg, s, ConsList(cfg, c))
  }

  /** All headers in ks are uncovered in s. */
  predicate AllOpen(s: Dlx, ks: seq<int>)
  {
    forall i :: 0 <= i < |ks| ==> Open(s, ks[i])
  }

  /** The Constraints of an alive Candidate are all open. */
  lemma AliveAllOpen(cfg: Config, s: Dlx, c: int)
    requires cfg.Valid() && Alive(cfg, s, c)
    ensures AllOpen(s, ConsList(cfg, c))
  {
    forall i | 0 <= i < 4
      ensures Open(s, ConsList(cfg, c)[i])
    {
      assert ConsList(cfg, c)[i] == ConsOf(cfg, c, i);
    }
  }

  /** Constraint.cover flags its header whether or not it was already covered. */
  lemma CoverFCovered(cfg: Config, s: Dlx, c: int)
    requires Shaped(cfg, s) && IsHeader(cfg, c)
    ensures CoverF(cfg, s, c).covered == s.covered[c := true]
    ensures Uncovered(cfg, CoverF(cfg, s, c).covered) == Uncovered(cfg, s.covered) - {c}
  {
    if s.covered[c] {
      assert s.covered[c := true] == s.covered;
    }
  }

  /** Covering the columns ks takes exactly them out of the uncovered set. */
  lemma {:induction false} CoverListCovered(cfg: Config, s: Dlx, ks: seq<int>)
    requires Shaped(cfg, s) && AllHeaders(cfg, ks)
    ensures Uncovered(cfg, CoverList(cfg, s, ks).covered) == Uncovered(cfg, s.covered) - Elems(ks)
    decreases |ks|
  {
    if |ks| > 0 {
      var init, k := ks[..|ks| - 1], ks[|ks| - 1];
      CoverListCovered(cfg, s, init);
      CoverFCovered(cfg, CoverList(cfg, s, init), k);
    }
  }

  /**
   * Covering distinct open columns one after another keeps the invariant, and
   * uncovering them in reverse order restores the state.
   */
  lemma {:induction false} CoverListGood(cfg: Config, s: Dlx, ks: seq<int>)
    requires Good(cfg, s) && AllHeaders(cfg, ks) && Distinct(ks) && AllOpen(s, ks)
    ensures Good(cfg, CoverList(cfg, s, ks))
    ensures UncoverList(cfg, CoverList(cfg, s, ks), ks) == s
    decreases |ks|
  {
    if |ks| > 0 {
      var init, k := ks[..|ks| - 1], ks[|ks| - 1];
      assert forall i :: 0 <= i < |init| ==> init[i] == ks[i];
      CoverListGood(cfg, s, init);
      CoverListCovered(cfg, s, init);
      var t0 := CoverList(cfg, s, init);
      ElemsMember(init);
      assert k !in init by {
        forall i | 0 <= i < |init|
          ensures init[i] != k
        {
          assert init[i] == ks[i];
        }
      }
      assert Open(s, ks[|ks| - 1]);
      OpenUncovered(cfg, s.covered, k);
      assert k in Uncovered(cfg, t0.covered);
      OpenUncovered(cfg, t0.covered, k);
      CoverGood(cfg, t0, k);
    }
  }

  /**
   * choose keeps the invariant and covers exactly the Candidate's four
   * Constraints; unchoose right after it restores the state exactly.
   */
  lemma ChooseGood(cfg: Config, s: Dlx, c: int)
    requires Good(cfg, s) && 0 <= c < cfg.NumCandidates() && AllOpen(s, ConsList(cfg, c))
    ensures Good(cfg, ChooseF(cfg, s, c))
    ensures Uncovered(cfg, ChooseF(cfg, s, c).covered) == Uncovered(cfg, s.covered) - Elems(ConsList(cfg, c))
    ensures UnchooseF(cfg, ChooseF(cfg, s, c), c) == s
  {
    ConsListProps(cfg, c);
    CoverListGood(cfg, s, ConsList(cfg, c));
    CoverListCovered(cfg, s, ConsList(cfg, c));
  }
}
