/**
 * SudokuMatrix.initialize_matrix and the constructors of Root, Constraint,
 * Candidate and Node, as steps on a snapshot of the arena; the invariant of
 * the half-built matrix; and the proof that the finished matrix satisfies
 * Dance.Good with every Constraint holding n Nodes and the Root n^3 Candidates.
 */
module Build {
  import opened Layout
  import opened Rings
  import opened Dance

  /** The arena before anything is linked: every slot points at itself, all counts 0. */
  function Blank(cfg: Config): (s: Dlx)
    requires cfg.Valid()
    ensures Shaped(cfg, s) && s.linked == {}
  {
    ArenaBounds(cfg);
    var a := cfg.ArenaSize();
    Dlx(seq(a, i => i), seq(a, i => i), seq(a, i => i), seq(a, i => i),
        seq(cfg.NumHeaders() + 1, k => 0), seq(cfg.NumHeaders() + 1, k => false), {})
  }

  /** Root.__init__: the Root's four links point at itself and it counts n^3 Candidates. */
  function RootF(cfg: Config, s: Dlx): (t: Dlx)
    requires Shaped(cfg, s)
    ensures Shaped(cfg, t)
  {
    ArenaBounds(cfg);
    s.(left := s.left[0 := 0], right := s.right[0 := 0], up := s.up[0 := 0], down := s.down[0 := 0],
       size := s.size[0 := cfg.NumCandidates()])
  }

  /**
   * Constraint.__init__: header k starts with size n, is linked in just left of
   * the Root, is a vertical ring of one, and is not covered.
   */
  function ConstraintF(cfg: Config, s: Dlx, k: int): (t: Dlx)
    requires Shaped(cfg, s) && IsHeader(cfg, k)
    ensures Shaped(cfg, t)
  {
    ArenaBounds(cfg);
    var prev := s.left[0];
    var right1 := s.right[prev := k];
    var left1 := s.left[k := prev];
    var right2 := right1[k := 0];
    var left2 := left1[0 := k];
    s.(left := left2, right := right2, up := s.up[k := k], down := s.down[k := k],
       size := s.size[k := cfg.n], covered := s.covered[k := false])
  }

  /**
   * Candidate.__init__ up to its Nodes: head h is linked in at the bottom of the
   * Root's column, and its row ring starts as h alone.
   */
  function HeadF(cfg: Config, s: Dlx, h: int): (t: Dlx)
    requires Shaped(cfg, s) && IsNode(cfg, h)
    ensures Shaped(cfg, t)
  {
    ArenaBounds(cfg);
    var prev := s.up[0];
    var up1 := s.up[0 := h];
    var down1 := s.down[prev := h];
    var up2 := up1[h := prev];
    var down2 := down1[h := 0];
    s.(up := up2, down := down2, left := s.left[h := h], linked := s.linked + {h})
  }

  /**
   * Node.__init__ followed by the row linking in Candidate.__init__: Node x is
   * linked in at the bottom of column k and at the left end of head h's row.
   */
  function NodeF(cfg: Config, s: Dlx, h: int, x: int, k: int): (t: Dlx)
    requires Shaped(cfg, s) && IsNode(cfg, h) && IsNode(cfg, x) && IsHeader(cfg, k)
    ensures Shaped(cfg, t)
  {
    ArenaBounds(cfg);
    var upNode := s.up[k];
    var down1 := s.down[x := k];
    var up1 := s.up[k := x];
    var up2 := up1[x := upNode];
    var down2 := down1[upNode := x];
    var leftNode := s.left[h];
    var left1 := s.left[x := leftNode];
    var right1 := s.right[leftNode := x];
    var left2 := left1[h := x];
    var right2 := right1[x := h];
    s.(up := up2, down := down2, left := left2, right := right2, linked := s.linked + {x})
  }

  // ---------------------------------------------------------------------------
  // The header phase

  /** The headers 1 .. K exist: the Root's horizontal ring lists them in order. */
  ghost predicate HeadersBuilt(cfg: Config, s: Dlx, K: int)
  {
    && Shaped(cfg, s) && 0 <= K <= cfg.NumHeaders() && s.linked == {}
    && Ring(s.left, s.right, [0] + HeaderSeq(cfg)[..K])
    && (forall k :: 0 <= k <= cfg.NumHeaders() ==> s.up[k] == k && s.down[k] == k)
    && (forall y :: cfg.First() <= y < cfg.ArenaSize() ==> s.right[y] == y)
    && s.size[0] == cfg.NumCandidates()
    && (forall k :: 1 <= k <= K ==> s.size[k] == cfg.n)
    && (forall k :: 0 <= k <= cfg.NumHeaders() ==> !s.covered[k])
  }

  lemma RootOk(cfg: Config)
    requires cfg.Valid()
    ensures HeadersBuilt(cfg, RootF(cfg, Blank(cfg)), 0)
  {
    ArenaBounds(cfg);
    var s := RootF(cfg, Blank(cfg));
    assert [0] + HeaderSeq(cfg)[..0] == [0];
  }

  lemma ConstraintOk(cfg: Config, s: Dlx, K: int)
    requires HeadersBuilt(cfg, s, K) && K < cfg.NumHeaders()
    ensures HeadersBuilt(cfg, ConstraintF(cfg, s, K + 1), K + 1)
  {
    ArenaBounds(cfg);
    var k := K + 1;
    var r := [0] + HeaderSeq(cfg)[..K];
    assert r + [k] == [0] + HeaderSeq(cfg)[..k];
    assert Distinct(r) by {
      forall i, j | 0 <= i < j < |r|
        ensures r[i] != r[j]
      {
        assert r[i] == i && r[j] == j;
      }
    }
    assert k !in r by {
      forall i | 0 <= i < |r|
        ensures r[i] != k
      {
        assert r[i] == i;
      }
    }
    RingAppend(s.left, s.right, r, k);
    var t := ConstraintF(cfg, s, k);
    var last := s.left[0];
    assert last == r[|r| - 1];
    assert last != k;
    assert t.left == s.left[r[0] := k][k := last];
    assert t.right == s.right[k := r[0]][last := k];
  }

  // ---------------------------------------------------------------------------
  // The Candidate phase

  /** The slots a, a + 1, ..., b - 1. */
  function Range(a: int, b: int): seq<int>
    requires a <= b
  {
    seq(b - a, i => a + i)
  }

  lemma RangeMember(a: int, b: int)
    requires a <= b
    ensures forall y :: y in Range(a, b) <==> a <= y < b
  {
    forall y | a <= y < b
      ensures y in Range(a, b)
    {
      assert Range(a, b)[y - a] == y;
    }
  }

  /** The Candidate slots created so far: every arena slot from First up to m. */
  function Below(cfg: Config, m: int): (b: set<int>)
    requires cfg.First() <= m
    ensures forall y :: y in b <==> cfg.First() <= y < m
  {
    RangeMember(cfg.First(), m);
    set y | y in Range(cfg.First(), m)
  }

  /** The head of the Candidate whose slots are being created when slot m is next. */
  function RowStart(cfg: Config, m: int): int
  {
    m - SlotOf(cfg, m)
  }

  /** Every column is a ring of its header and its members in L, in creation order. */
  ghost predicate ColumnsBuilt(cfg: Config, up: seq<int>, down: seq<int>, L: set<int>)
    requires cfg.Valid()
  {
    forall k :: 0 <= k <= cfg.NumHeaders() ==> Ring(up, down, Column(cfg, k, L))
  }

  /**
   * With slots First .. m - 1 created: every finished Candidate's row is in
   * place, the row of the Candidate under construction is a ring of the slots
   * made so far, and the slots not yet created still point right at themselves.
   */
  ghost predicate RowsBuilt(cfg: Config, left: seq<int>, right: seq<int>, m: int)
  {
    && cfg.Valid() && cfg.First() <= m <= cfg.ArenaSize()
    && |left| == cfg.ArenaSize() && |right| == cfg.ArenaSize()
    && (forall x :: cfg.First() <= x < RowStart(cfg, m) ==> right[x] == RightOf(cfg, x) && left[x] == LeftOf(cfg, x))
    && (RowStart(cfg, m) < m ==> Ring(left, right, Range(RowStart(cfg, m), m)))
    && (forall y :: m <= y < cfg.ArenaSize() ==> right[y] == y)
  }

  /** The matrix while initialize_matrix creates the Candidate slots, with slots First .. m - 1 done. */
  ghost predicate Partial(cfg: Config, s: Dlx, m: int)
  {
    && Shaped(cfg, s) && cfg.First() <= m <= cfg.ArenaSize() && s.linked == Below(cfg, m)
    && ColumnsBuilt(cfg, s.up, s.down, s.linked)
    && Ring(s.left, s.right, [0] + HeaderSeq(cfg))
    && RowsBuilt(cfg, s.left, s.right, m)
    && s.size[0] == cfg.NumCandidates()
    && (forall k :: 1 <= k <= cfg.NumHeaders() ==> s.size[k] == cfg.n)
    && (forall k :: 0 <= k <= cfg.NumHeaders() ==> !s.covered[k])
  }

  lemma HeadersDone(cfg: Config, s: Dlx)
    requires HeadersBuilt(cfg, s, cfg.NumHeaders())
    ensures Partial(cfg, s, cfg.First())
  {
    ArenaBounds(cfg);
    assert HeaderSeq(cfg)[..cfg.NumHeaders()] == HeaderSeq(cfg);
    assert Below(cfg, cfg.First()) == {};
    forall k | 0 <= k <= cfg.NumHeaders()
      ensures Ring(s.up, s.down, Column(cfg, k, s.linked))
    {
      FilterNone(Members(cfg, k), s.linked);
      assert Column(cfg, k, s.linked) == [k];
    }
  }

  /** Linking x in at the bottom of its own column appends it to the column's ring. */
  lemma ColumnAppendOwn(cfg: Config, up: seq<int>, down: seq<int>, k: int, L: set<int>, x: int)
    requires cfg.Valid() && 0 <= k <= cfg.NumHeaders() && x in Members(cfg, k) && x !in L
    requires forall y :: y in Members(cfg, k) && y in L ==> y < x
    requires Ring(up, down, Column(cfg, k, L)) && 0 <= x < |up| && x < |down|
    ensures 0 <= up[k] < |down| && up[k] != x
    ensures Column(cfg, k, L + {x}) == Column(cfg, k, L) + [x]
    ensures Ring(up[k := x][x := up[k]], down[x := k][up[k] := x], Column(cfg, k, L + {x}))
  {
    var r := Column(cfg, k, L);
    MembersIncreasingAll(cfg, k);
    FilterAppend(Members(cfg, k), L, x);
    ColumnIncreasing(cfg, k, L);
    var j :| 0 <= j < |Members(cfg, k)| && Members(cfg, k)[j] == x;
    MembersInColumn(cfg, k, j);
    forall i | 0 <= i < |r|
      ensures r[i] != x
    {
      ColumnMember(cfg, k, L, i);
    }
    RingAppend(up, down, r, x);
    assert r[0] == k && r[|r| - 1] == up[k];
  }

  /** Linking a Node into column kx leaves the ring of every other column alone. */
  lemma ColumnAppendOther(cfg: Config, up: seq<int>, down: seq<int>, k: int, kx: int, L: set<int>, x: int)
    requires cfg.Valid() && 0 <= k <= cfg.NumHeaders() && 0 <= kx <= cfg.NumHeaders() && k != kx
    requires x in Members(cfg, kx)
    requires Ring(up, down, Column(cfg, k, L)) && Ring(up, down, Column(cfg, kx, L)) && 0 <= x < |up| && x < |down|
    ensures Column(cfg, k, L + {x}) == Column(cfg, k, L)
    ensures Ring(up[kx := x][x := up[kx]], down[x := kx][up[kx] := x], Column(cfg, k, L + {x}))
  {
    MembersDisjoint(cfg, kx, k, x);
    FilterSame(Members(cfg, k), L, L + {x});
    var Ck, Cx := Column(cfg, k, L), Column(cfg, kx, L);
    var j :| 0 <= j < |Members(cfg, kx)| && Members(cfg, kx)[j] == x;
    MembersInColumn(cfg, kx, j);
    assert Cx[0] == kx && Cx[|Cx| - 1] == up[kx];
    var up', down' := up[kx := x][x := up[kx]], down[x := kx][up[kx] := x];
    ColumnAvoids(cfg, up, down, k, kx, L, x);
    RingFrame(up, down, up', down', Ck);
  }

  /** Column k's ring meets neither header kx, nor the last member of column kx, nor a member x of column kx. */
  lemma ColumnAvoids(cfg: Config, up: seq<int>, down: seq<int>, k: int, kx: int, L: set<int>, x: int)
    requires cfg.Valid() && 0 <= k <= cfg.NumHeaders() && 0 <= kx <= cfg.NumHeaders() && k != kx
    requires x in Members(cfg, kx) && IsNode(cfg, x) && ColOf(cfg, x) == kx
    requires Ring(up, down, Column(cfg, k, L)) && Ring(up, down, Column(cfg, kx, L))
    ensures forall i :: 0 <= i < |Column(cfg, k, L)| ==>
      && Column(cfg, k, L)[i] != kx && Column(cfg, k, L)[i] != x
      && Column(cfg, k, L)[i] != Column(cfg, kx, L)[|Column(cfg, kx, L)| - 1]
  {
    var Ck, Cx := Column(cfg, k, L), Column(cfg, kx, L);
    forall i | 0 <= i < |Ck|
      ensures Ck[i] != kx && Ck[i] != x && Ck[i] != Cx[|Cx| - 1]
    {
      ColumnsDisjoint(cfg, k, L, i, kx, L, 0);
      ColumnsDisjoint(cfg, k, L, i, kx, L, |Cx| - 1);
      ColumnMember(cfg, k, L, i);
    }
  }

  /** Linking slot m in at the bottom of its column keeps every column a ring of the created slots. */
  lemma ColumnsAppend(cfg: Config, up: seq<int>, down: seq<int>, m: int, L: set<int>, L': set<int>)
    requires cfg.Valid() && IsNode(cfg, m) && InArena(cfg, up) && InArena(cfg, down)
    requires ColumnsBuilt(cfg, up, down, L) && L == Below(cfg, m) && L' == Below(cfg, m + 1)
    ensures var k := ColOf(cfg, m);
      && 0 <= k <= cfg.NumHeaders() && 0 <= up[k] < cfg.ArenaSize() && up[k] != m
      && ColumnsBuilt(cfg, up[k := m][m := up[k]], down[m := k][up[k] := m], L')
  {
    ArenaBounds(cfg);
    assert L' == L + {m};
    MemberOfOwnColumn(cfg, m);
    var kx := ColOf(cfg, m);
    var mx := Members(cfg, kx)[MemberIndex(cfg, m)];
    assert mx in Members(cfg, kx);
    ColumnAppendOwn(cfg, up, down, kx, L, m);
    forall k | 0 <= k <= cfg.NumHeaders() && k != kx
      ensures Ring(up[kx := m][m := up[kx]], down[m := kx][up[kx] := m], Column(cfg, k, L'))
    {
      ColumnAppendOther(cfg, up, down, k, kx, L, m);
    }
  }

  /** Position arithmetic of consecutive slots. */
  lemma SlotNext(cfg: Config, m: int)
    requires cfg.Valid() && IsNode(cfg, m)
    ensures SlotOf(cfg, m) < 4 ==> SlotOf(cfg, m + 1) == SlotOf(cfg, m) + 1
    ensures SlotOf(cfg, m) == 4 ==> SlotOf(cfg, m + 1) == 0
  {
  }

  /** The header ring is untouched by link changes at Candidate slots. */
  lemma HeaderRingFrame(cfg: Config, s: Dlx, left': seq<int>, right': seq<int>)
    requires Shaped(cfg, s) && Ring(s.left, s.right, [0] + HeaderSeq(cfg))
    requires |left'| == |s.left| && |right'| == |s.right|
    requires forall k :: 0 <= k <= cfg.NumHeaders() ==> left'[k] == s.left[k] && right'[k] == s.right[k]
    ensures Ring(left', right', [0] + HeaderSeq(cfg))
  {
    var r := [0] + HeaderSeq(cfg);
    forall i | 0 <= i < |r|
      ensures left'[r[i]] == s.left[r[i]] && right'[r[i]] == s.right[r[i]]
    {
      assert r[i] == i;
    }
    RingFrame(s.left, s.right, left', right', r);
  }

  /** Candidate.__init__ linking in head m keeps the construction invariant. */
  lemma HeadStep(cfg: Config, s: Dlx, m: int)
    requires Partial(cfg, s, m) && m < cfg.ArenaSize() && SlotOf(cfg, m) == 0
    ensures Partial(cfg, HeadF(cfg, s, m), m + 1)
  {
    ArenaBounds(cfg);
    ColOfInRange(cfg, m);
    SlotNext(cfg, m);
    var t := HeadF(cfg, s, m);
    var L' := Below(cfg, m + 1);
    ColumnsAppend(cfg, s.up, s.down, m, s.linked, L');
    var prev := s.up[0];
    assert t.up == s.up[0 := m][m := prev];
    assert t.down == s.down[m := 0][prev := m];
    assert t.linked == L';
    HeaderRingFrame(cfg, s, t.left, t.right);
    RowsHead(cfg, s.left, s.right, m);
  }

  /** Linking m in at the left end of the row of h, whose ring holds h .. m - 1, extends the ring to h .. m. */
  lemma RowGrow(left: seq<int>, right: seq<int>, h: int, m: int)
    requires 0 <= h < m < |left| && m < |right| && Ring(left, right, Range(h, m))
    ensures left[h] == m - 1
    ensures Ring(left[m := left[h]][h := m], right[left[h] := m][m := h], Range(h, m + 1))
  {
    var r := Range(h, m);
    RangeMember(h, m);
    assert Distinct(r);
    RingAppend(left, right, r, m);
    assert r[0] == h && r[|r| - 1] == m - 1;
    assert left[m := left[h]][h := m] == left[h := m][m := m - 1];
    assert right[left[h] := m][m := h] == right[m := h][m - 1 := m];
    assert r + [m] == Range(h, m + 1);
  }

  /** A finished row ring of five slots is the static row of its Candidate. */
  lemma RowClose(cfg: Config, left: seq<int>, right: seq<int>, c: int)
    requires cfg.Valid() && 0 <= c < cfg.NumCandidates()
    requires Ring(left, right, Range(Head(cfg, c), Head(cfg, c) + 5))
    ensures forall x :: Head(cfg, c) <= x < Head(cfg, c) + 5 ==> right[x] == RightOf(cfg, x) && left[x] == LeftOf(cfg, x)
  {
    var h := Head(cfg, c);
    forall x | h <= x < h + 5
      ensures right[x] == RightOf(cfg, x) && left[x] == LeftOf(cfg, x)
    {
      SlotRoundTrip(cfg, c, x - h);
      RingNext(left, right, Range(h, h + 5), x - h);
    }
  }

  /** Starting the row of head m. */
  lemma RowsHead(cfg: Config, left: seq<int>, right: seq<int>, m: int)
    requires RowsBuilt(cfg, left, right, m) && m < cfg.ArenaSize() && SlotOf(cfg, m) == 0
    ensures RowsBuilt(cfg, left[m := m], right, m + 1)
  {
    SlotNext(cfg, m);
    assert Range(m, m + 1) == [m];
  }

  /** Appending Node m to the row under construction; the fourth Node finishes the row. */
  lemma RowsNode(cfg: Config, left: seq<int>, right: seq<int>, m: int)
    requires RowsBuilt(cfg, left, right, m) && m < cfg.ArenaSize() && SlotOf(cfg, m) != 0
    ensures var h := RowStart(cfg, m);
      0 <= h < m && 0 <= left[h] < m && RowsBuilt(cfg, left[m := left[h]][h := m], right[left[h] := m][m := h], m + 1)
  {
    SlotDecode(cfg, m);
    SlotNext(cfg, m);
    var h := RowStart(cfg, m);
    RowGrow(left, right, h, m);
    if SlotOf(cfg, m) == 4 {
      RowsNodeLast(cfg, left, right, m, h);
    } else {
      RowsNodeMid(cfg, left, right, m, h);
    }
  }

  /** RowsNode for the first three Nodes: the row under construction grows by one. */
  lemma RowsNodeMid(cfg: Config, left: seq<int>, right: seq<int>, m: int, h: int)
    requires RowsBuilt(cfg, left, right, m) && m < cfg.ArenaSize() && 0 < SlotOf(cfg, m) < 4
    requires h == RowStart(cfg, m) && RowStart(cfg, m + 1) == h && 0 <= h < m && left[h] == m - 1
    requires Ring(left[m := left[h]][h := m], right[left[h] := m][m := h], Range(h, m + 1))
    ensures RowsBuilt(cfg, left[m := left[h]][h := m], right[left[h] := m][m := h], m + 1)
  {
  }

  /** RowsNode for the fourth Node: the row is closed and becomes a finished Candidate ring. */
  lemma RowsNodeLast(cfg: Config, left: seq<int>, right: seq<int>, m: int, h: int)
    requires RowsBuilt(cfg, left, right, m) && m < cfg.ArenaSize() && SlotOf(cfg, m) == 4
    requires h == RowStart(cfg, m) && h == m - 4 && RowStart(cfg, m + 1) == m + 1 && left[h] == m - 1
    requires Ring(left[m := left[h]][h := m], right[left[h] := m][m := h], Range(h, m + 1))
    ensures RowsBuilt(cfg, left[m := left[h]][h := m], right[left[h] := m][m := h], m + 1)
  {
    SlotDecode(cfg, m);
    RowClose(cfg, left[m := left[h]][h := m], right[left[h] := m][m := h], CandOf(cfg, m));
  }


  /**
   * Node.__init__ and the row linking of Candidate.__init__ for slot m keep the
   * construction invariant.
   */
  lemma NodeStep(cfg: Config, s: Dlx, m: int)
    requires Partial(cfg, s, m) && m < cfg.ArenaSize() && SlotOf(cfg, m) != 0
    ensures IsNode(cfg, RowStart(cfg, m)) && IsHeader(cfg, ColOf(cfg, m))
    ensures Partial(cfg, NodeF(cfg, s, RowStart(cfg, m), m, ColOf(cfg, m)), m + 1)
  {
    ArenaBounds(cfg);
    ColOfInRange(cfg, m);
    var h, k := RowStart(cfg, m), ColOf(cfg, m);
    var t := NodeF(cfg, s, h, m, k);
    var L' := Below(cfg, m + 1);
    ColumnsAppend(cfg, s.up, s.down, m, s.linked, L');
    assert t.linked == L';
    RowsNode(cfg, s.left, s.right, m);
    HeaderRingFrame(cfg, s, t.left, t.right);
  }

  /** With every slot created, each column holds all of its members. */
  lemma AllMembersLinked(cfg: Config, L: set<int>)
    requires cfg.Valid() && L == Below(cfg, cfg.ArenaSize())
    ensures forall k :: 0 <= k <= cfg.NumHeaders() ==>
      Filter(Members(cfg, k), L) == Members(cfg, k) && |Members(cfg, k)| == if k == 0 then cfg.NumCandidates() else cfg.n
  {
    ArenaBounds(cfg);
    forall k | 0 <= k <= cfg.NumHeaders()
      ensures Filter(Members(cfg, k), L) == Members(cfg, k)
    {
      forall y | y in Members(cfg, k)
        ensures y in L
      {
        var j :| 0 <= j < |Members(cfg, k)| && Members(cfg, k)[j] == y;
        MembersInColumn(cfg, k, j);
      }
      FilterAll(Members(cfg, k), L);
    }
  }

  /** With every slot created and every Constraint open, every Candidate is available. */
  lemma AllAlive(cfg: Config, s: Dlx)
    requires Shaped(cfg, s) && s.linked == Below(cfg, cfg.ArenaSize())
    requires forall k :: 0 <= k <= cfg.NumHeaders() ==> !s.covered[k]
    ensures forall c :: 0 <= c < cfg.NumCandidates() ==> Alive(cfg, s, c)
  {
    forall c | 0 <= c < cfg.NumCandidates()
      ensures Alive(cfg, s, c)
    {
      forall j | 0 <= j < 5
        ensures Slot(cfg, c, j) in s.linked
      {
        SlotFacts(cfg, c, j);
      }
      forall f | 0 <= f < 4
        ensures Open(s, ConsOf(cfg, c, f))
      {
        ConsOfProps(cfg, c, f);
      }
    }
  }

  /**
   * Once every slot is created the matrix satisfies the invariant of the
   * algorithm: every column holds all its Nodes, the Root counts n^3
   * Candidates, every Constraint n Nodes, nothing is covered and every
   * Candidate is available.
   */
  lemma Finished(cfg: Config, s: Dlx)
    requires Partial(cfg, s, cfg.ArenaSize())
    ensures Good(cfg, s)
    ensures forall k :: IsHeader(cfg, k) ==> k in Uncovered(cfg, s.covered)
    ensures forall c :: 0 <= c < cfg.NumCandidates() ==> Alive(cfg, s, c)
  {
    FinishedColumns(cfg, s);
    FinishedRing(cfg, s);
    FinishedRows(cfg, s);
    FinishedAlive(cfg, s);
  }

  /** Once every slot is created, each column ring holds all of its members and its size counts them. */
  lemma FinishedColumns(cfg: Config, s: Dlx)
    requires Partial(cfg, s, cfg.ArenaSize())
    ensures ColumnsOk(cfg, s)
  {
    AllMembersLinked(cfg, s.linked);
  }

  /** Once every slot is created, the header ring is the Root followed by every Constraint, all open. */
  lemma FinishedRing(cfg: Config, s: Dlx)
    requires Partial(cfg, s, cfg.ArenaSize())
    ensures Ring(s.left, s.right, HeaderRing(cfg, s))
    ensures forall k :: IsHeader(cfg, k) ==> k in Uncovered(cfg, s.covered)
  {
    var U := Uncovered(cfg, s.covered);
    forall y | y in HeaderSeq(cfg)
      ensures y in U
    {
    }
    FilterAll(HeaderSeq(cfg), U);
  }

  /** Once every slot is created, every Candidate's row is its finished ring. */
  lemma FinishedRows(cfg: Config, s: Dlx)
    requires Partial(cfg, s, cfg.ArenaSize())
    ensures RowsStatic(cfg, s)
  {
    ArenaBounds(cfg);
    assert SlotOf(cfg, cfg.ArenaSize()) == 0;
  }

  /** Once every slot is created, every Candidate is alive. */
  lemma FinishedAlive(cfg: Config, s: Dlx)
    requires Partial(cfg, s, cfg.ArenaSize())
    ensures Closed(cfg, s)
    ensures forall c :: 0 <= c < cfg.NumCandidates() ==> Alive(cfg, s, c)
  {
    AllAlive(cfg, s);
  }


  /**
   * The four Constraints Candidate.__init__ looks up for (row, col, box, num),
   * in the order of its intersections, are the Constraints of the Candidate.
   */
  lemma Intersections(cfg: Config, row: int, col: int, box: int, num: int)
    requires cfg.Valid() && 0 <= row < cfg.n && 0 <= col < cfg.n && 0 <= num < cfg.n && box == Box(cfg, row, col)
    ensures var n := cfg.n;
      [Header(CEL, row * n + col), Header(ROW, row * n + num), Header(COL, col * n + num), Header(BOX, box * n + num)]
        == ConsList(cfg, Cand(cfg, row, col, num))
    ensures 0 <= Cand(cfg, row, col, num) < cfg.NumCandidates()
  {
    CandRoundTrip(cfg, row, col, num);
  }

  /** Slot j of Candidate c is created next after its first j slots, under the Constraint ConsList names. */
  lemma CandidateSlot(cfg: Config, c: int, j: int)
    requires cfg.Valid() && 0 <= c < cfg.NumCandidates() && 0 <= j < 5
    ensures IsNode(cfg, Head(cfg, c) + j) && SlotOf(cfg, Head(cfg, c) + j) == j && RowStart(cfg, Head(cfg, c) + j) == Head(cfg, c)
    ensures j > 0 ==> ColOf(cfg, Head(cfg, c) + j) == ConsList(cfg, c)[j - 1]
  {
    SlotFacts(cfg, c, j);
  }

  /** Linking the head of Candidate (row, col, num) in is the next step once the slots before it are built. */
  lemma CandidateHead(cfg: Config, s: Dlx, row: int, col: int, num: int, h: int)
    requires cfg.Valid() && 0 <= row < cfg.n && 0 <= col < cfg.n && 0 <= num < cfg.n
    requires h == Head(cfg, Cand(cfg, row, col, num)) && Partial(cfg, s, h)
    ensures Shaped(cfg, s) && IsNode(cfg, h) && Partial(cfg, HeadF(cfg, s, h), h + 1)
  {
    CandRoundTrip(cfg, row, col, num);
    CandidateSlot(cfg, Cand(cfg, row, col, num), 0);
    HeadStep(cfg, s, h);
  }

  /** Slot m is a Node slot of the Candidate whose head is h, and its Node belongs under Constraint k. */
  predicate SlotIs(cfg: Config, h: int, m: int, k: int)
    requires cfg.Valid()
  {
    SlotOf(cfg, m) == m - h && RowStart(cfg, m) == h && ColOf(cfg, m) == k
  }

  /** The four slots after head h are its Nodes under the Constraints ks, in order. */
  predicate NodeSlots(cfg: Config, h: int, ks: seq<int>)
  {
    && cfg.Valid() && IsNode(cfg, h) && IsNode(cfg, h + 4) && |ks| == 4 && AllHeaders(cfg, ks)
    && forall f :: 0 <= f < 4 ==> SlotIs(cfg, h, h + 1 + f, ks[f])
  }

  /** The slots of Candidate (row, col, num), with head h, hold its Nodes under its intersections. */
  lemma CandidateSlots(cfg: Config, row: int, col: int, box: int, num: int, h: int)
    requires cfg.Valid() && 0 <= row < cfg.n && 0 <= col < cfg.n && 0 <= num < cfg.n && box == Box(cfg, row, col)
    requires h == Head(cfg, Cand(cfg, row, col, num))
    ensures NodeSlots(cfg, h, IntersectionsOf(cfg, row, col, box, num))
  {
    var c := Cand(cfg, row, col, num);
    var ks := IntersectionsOf(cfg, row, col, box, num);
    CandidateFits(cfg, row, col, box, num, h);
    Intersections(cfg, row, col, box, num);
    forall f | 0 <= f < 4
      ensures SlotIs(cfg, h, h + 1 + f, ks[f])
    {
      CandidateSlot(cfg, c, f + 1);
      assert h + (f + 1) == h + 1 + f;
    }
  }

  /** The Node in slot m = h + 1 + f is the next step after the head h and the f Nodes before it. */
  lemma NodeNext(cfg: Config, s: Dlx, h: int, ks: seq<int>, f: int, m: int, next: int)
    requires NodeSlots(cfg, h, ks) && 0 <= f < 4 && m == h + 1 + f && next == m + 1 && Partial(cfg, s, m)
    ensures Shaped(cfg, s) && IsNode(cfg, m) && IsHeader(cfg, ks[f])
    ensures Partial(cfg, NodeF(cfg, s, h, m, ks[f]), next)
  {
    assert SlotIs(cfg, h, h + 1 + f, ks[f]);
    NodeStep(cfg, s, m);
  }

  /** The matrix after the head h and the Nodes under the first f Constraints of ks have been linked into s. */
  function NodesF(cfg: Config, s: Dlx, h: int, ks: seq<int>, f: int): (t: Dlx)
    requires Shaped(cfg, s) && IsNode(cfg, h) && IsNode(cfg, h + 4) && 0 <= f <= 4 && |ks| == 4 && AllHeaders(cfg, ks)
    ensures Shaped(cfg, t)
    decreases f
  {
    if f == 0 then s else NodeF(cfg, NodesF(cfg, s, h, ks, f - 1), h, h + f, ks[f - 1])
  }

  /** One more step of NodesF links Node h + 1 + f into column ks[f]. */
  lemma NodesFStep(cfg: Config, t: Dlx, h: int, ks: seq<int>, f: int)
    requires Shaped(cfg, t) && IsNode(cfg, h) && IsNode(cfg, h + 4) && 0 <= f < 4 && |ks| == 4 && AllHeaders(cfg, ks)
    ensures IsNode(cfg, h + 1 + f) && IsHeader(cfg, ks[f]) && Shaped(cfg, NodesF(cfg, t, h, ks, f))
    ensures NodesF(cfg, t, h, ks, f + 1) == NodeF(cfg, NodesF(cfg, t, h, ks, f), h, h + 1 + f, ks[f])
  {
  }

  /** The Constraints of Candidate.__init__'s intersections for (row, col, box, num): cell, row, column, box. */
  function IntersectionsOf(cfg: Config, row: int, col: int, box: int, num: int): seq<int>
  {
    var n := cfg.n;
    [Header(CEL, row * n + col), Header(ROW, row * n + num), Header(COL, col * n + num), Header(BOX, box * n + num)]
  }

  /** The slots of Candidate (row, col, num) lie in the arena and its intersections are headers. */
  lemma CandidateFits(cfg: Config, row: int, col: int, box: int, num: int, h: int)
    requires cfg.Valid() && 0 <= row < cfg.n && 0 <= col < cfg.n && 0 <= num < cfg.n && box == Box(cfg, row, col)
    requires h == Head(cfg, Cand(cfg, row, col, num))
    ensures IsNode(cfg, h) && IsNode(cfg, h + 4)
    ensures |IntersectionsOf(cfg, row, col, box, num)| == 4 && AllHeaders(cfg, IntersectionsOf(cfg, row, col, box, num))
  {
    Intersections(cfg, row, col, box, num);
    ConsListProps(cfg, Cand(cfg, row, col, num));
    CandidateSlot(cfg, Cand(cfg, row, col, num), 0);
    CandidateSlot(cfg, Cand(cfg, row, col, num), 4);
  }

  /** Candidate.__init__ for (row, col, box, num) at slot h: its head, then its four Nodes. */
  ghost function CandidateF(cfg: Config, s: Dlx, row: int, col: int, box: int, num: int, h: int): (t: Dlx)
    requires Shaped(cfg, s) && 0 <= row < cfg.n && 0 <= col < cfg.n && 0 <= num < cfg.n && box == Box(cfg, row, col)
    requires h == Head(cfg, Cand(cfg, row, col, num))
    ensures Shaped(cfg, t)
  {
    CandidateFits(cfg, row, col, box, num, h);
    var ks := IntersectionsOf(cfg, row, col, box, num);
    NodesF(cfg, HeadF(cfg, s, h), h, ks, |ks|)
  }

  /** Linking the four Nodes in one by one, as a single nest of NodeF steps. */
  lemma NodesUnrolled(cfg: Config, t: Dlx, h: int, ks: seq<int>)
    requires Shaped(cfg, t) && IsNode(cfg, h) && IsNode(cfg, h + 4) && |ks| == 4 && AllHeaders(cfg, ks)
    ensures NodesF(cfg, t, h, ks, |ks|) ==
      NodeF(cfg, NodeF(cfg, NodeF(cfg, NodeF(cfg, t, h, h + 1, ks[0]), h, h + 2, ks[1]), h, h + 3, ks[2]), h, h + 4, ks[3])
  {
    assert NodesF(cfg, t, h, ks, 1) == NodeF(cfg, t, h, h + 1, ks[0]);
    assert NodesF(cfg, t, h, ks, 2) == NodeF(cfg, NodesF(cfg, t, h, ks, 1), h, h + 2, ks[1]);
    assert NodesF(cfg, t, h, ks, 3) == NodeF(cfg, NodesF(cfg, t, h, ks, 2), h, h + 3, ks[2]);
  }

  /** Linking the first two Nodes after a Candidate's head leaves the slots up to h + 3 done. */
  lemma NodesFirstTwo(cfg: Config, s0: Dlx, h: int, ks: seq<int>)
    requires NodeSlots(cfg, h, ks) && Partial(cfg, s0, h + 1)
    ensures Partial(cfg, NodeF(cfg, NodeF(cfg, s0, h, h + 1, ks[0]), h, h + 2, ks[1]), h + 3)
  {
    NodeNext(cfg, s0, h, ks, 0, h + 1, h + 2);
    NodeNext(cfg, NodeF(cfg, s0, h, h + 1, ks[0]), h, ks, 1, h + 2, h + 3);
  }

  /** Linking the last two Nodes of a Candidate leaves the slots up to h + 5 done. */
  lemma NodesLastTwo(cfg: Config, s2: Dlx, h: int, ks: seq<int>)
    requires NodeSlots(cfg, h, ks) && Partial(cfg, s2, h + 3)
    ensures Partial(cfg, NodeF(cfg, NodeF(cfg, s2, h, h + 3, ks[2]), h, h + 4, ks[3]), h + 5)
  {
    NodeNext(cfg, s2, h, ks, 2, h + 3, h + 4);
    NodeNext(cfg, NodeF(cfg, s2, h, h + 3, ks[2]), h, ks, 3, h + 4, h + 5);
  }

  /** Linking all four Nodes after a Candidate's head leaves the slots up to h + 5 done. */
  lemma NodesBuilt(cfg: Config, s0: Dlx, h: int, ks: seq<int>)
    requires NodeSlots(cfg, h, ks) && Partial(cfg, s0, h + 1)
    ensures Partial(cfg, NodesF(cfg, s0, h, ks, |ks|), h + 5)
  {
    NodesFirstTwo(cfg, s0, h, ks);
    NodesLastTwo(cfg, NodeF(cfg, NodeF(cfg, s0, h, h + 1, ks[0]), h, h + 2, ks[1]), h, ks);
    NodesUnrolled(cfg, s0, h, ks);
  }

  /**
   * Candidate.__init__ for (row, col, box, num) at slot h keeps the matrix
   * partially built: once the head and its four Nodes are linked in, the
   * slots up to h + 5 are done.
   */
  lemma CandidateBuilt(cfg: Config, s: Dlx, row: int, col: int, box: int, num: int, h: int)
    requires cfg.Valid() && 0 <= row < cfg.n && 0 <= col < cfg.n && 0 <= num < cfg.n && box == Box(cfg, row, col)
    requires h == Head(cfg, Cand(cfg, row, col, num)) && Partial(cfg, s, h)
    ensures Partial(cfg, CandidateF(cfg, s, row, col, box, num, h), h + 5)
  {
    CandidateHead(cfg, s, row, col, num, h);
    CandidateSlots(cfg, row, col, box, num, h);
    NodesBuilt(cfg, HeadF(cfg, s, h), h, IntersectionsOf(cfg, row, col, box, num));
  }
}
