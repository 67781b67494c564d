/**
 * The static shape of the exact-cover matrix that SudokuMatrix.initialize_matrix
 * builds, laid out as one arena of integer indices.
 *
 *   index 0                     the Root sentinel
 *   1 .. 4n^2                   the Constraint headers, in the order the source
 *                               appends them: for each cell index idx the cell,
 *                               row, column and box Constraint (family f = 0..3)
 *                               at index 1 + 4*idx + f
 *   First + 5c                  the head of Candidate c, c = row*n*n + col*n + num
 *   First + 5c + 1 + f          the Node of Candidate c in its family-f Constraint
 *
 * where First = 4n^2 + 1.  A Constraint "column" k holds the Nodes whose
 * Constraint is k; the Root's column holds the Candidate heads.
 */
module Layout {

  /** The grid parameters n and boxWidth. */
  datatype Config = Config(n: int, boxWidth: int)
  {
    /** What SudokuMatrix.__init__ asserts (a zero width fails the modulo). */
    predicate Valid()
    {
      1 < n < 35 && 0 < boxWidth && n % boxWidth == 0
    }

    /** boxHeight = n // boxWidth: the height of a box and the number of boxes per band. */
    function BoxHeight(): int
      requires Valid()
    {
      n / boxWidth
    }

    function Cells(): int { n * n }
    function NumCandidates(): (k: int)
      ensures 0 <= n ==> 0 <= k
    {
      n * n * n
    }

    function NumHeaders(): int { 4 * (n * n) }
    function First(): int { NumHeaders() + 1 }
    function ArenaSize(): int { First() + 5 * NumCandidates() }
  }

  // ---------------------------------------------------------------------------
  // Arithmetic helpers

  lemma DivModUnique(a: int, b: int, q: int, r: int)
    requires b > 0 && 0 <= r < b && a == q * b + r
    ensures a / b == q && a % b == r
  {
    var q', r' := a / b, a % b;
    assert (q - q') * b == r' - r;
    if q > q' {
      MulAtLeast(q - q', b);
    } else if q < q' {
      MulAtLeast(q' - q, b);
    }
  }

  /** The arena holds the Root, then the headers, then the Candidate slots. */
  lemma ArenaBounds(cfg: Config)
    requires cfg.Valid()
    ensures cfg.Cells() >= 4 && cfg.NumCandidates() >= 8
    ensures 0 < cfg.NumHeaders() < cfg.First() < cfg.ArenaSize()
  {
    var n := cfg.n;
    MulMono(2, n, n);
    MulMono(2, n, 2);
    MulMono(4, n * n, n);
  }

  lemma MulAtLeast(k: int, b: int)
    requires k >= 1 && b > 0
    ensures k * b >= b
  {
  }

  lemma MulMono(a: int, b: int, c: int)
    requires 0 <= a <= b && 0 <= c
    ensures a * c <= b * c
  {
  }

  /** a < q*b and a >= 0 give a / b < q. */
  lemma DivBelow(a: int, b: int, q: int)
    requires b > 0 && 0 <= a < q * b
    ensures 0 <= a / b < q
  {
    if a / b >= q {
      MulMono(q, a / b, b);
    }
  }

  /** The row-major pair (hi, lo) with lo < m packs into hi*m + lo < top*m. */
  lemma PackBound(hi: int, lo: int, m: int, top: int)
    requires 0 <= hi < top && 0 <= lo < m
    ensures 0 <= hi * m + lo < top * m
  {
    MulMono(hi + 1, top, m);
  }

  /** Row row of the grid occupies flat indices row*n .. row*n + n - 1, all below n^2. */
  lemma RowBounds(cfg: Config, row: int)
    requires cfg.n > 0 && 0 <= row < cfg.n
    ensures 0 <= row * cfg.n && row * cfg.n + cfg.n <= cfg.Cells()
  {
    MulMono(row + 1, cfg.n, cfg.n);
  }

  /** Packing is strictly monotone in the high part. */
  lemma PackLess(hi1: int, lo1: int, hi2: int, lo2: int, m: int)
    requires 0 <= lo1 < m && 0 <= lo2 < m && 0 <= hi1 < hi2
    ensures hi1 * m + lo1 < hi2 * m + lo2
  {
    MulMono(hi1 + 1, hi2, m);
  }

  lemma BoxDims(cfg: Config)
    requires cfg.Valid()
    ensures cfg.BoxHeight() > 0
    ensures cfg.BoxHeight() * cfg.boxWidth == cfg.n
  {
    DivModUnique(cfg.n, cfg.boxWidth, cfg.n / cfg.boxWidth, 0);
  }

  // ---------------------------------------------------------------------------
  // Cells, boxes and candidates

  /** The box of a cell: col // boxWidth + boxHeight * (row // boxHeight). */
  function Box(cfg: Config, row: int, col: int): int
    requires cfg.Valid()
  {
    col / cfg.boxWidth + cfg.BoxHeight() * (row / cfg.BoxHeight())
  }

  lemma BoxInRange(cfg: Config, row: int, col: int)
    requires cfg.Valid() && 0 <= row < cfg.n && 0 <= col < cfg.n
    ensures 0 <= Box(cfg, row, col) < cfg.n
  {
    var bw, bh := cfg.boxWidth, cfg.BoxHeight();
    BoxDims(cfg);
    DivBelow(col, bw, bh);
    DivBelow(row, bh, bw);
    PackBound(row / bh, col / bw, bh, bw);
  }

  /** The index of a Candidate: row*n*n + col*n + num. */
  function Cand(cfg: Config, row: int, col: int, num: int): int
  {
    (row * cfg.n + col) * cfg.n + num
  }

  function CandLoc(cfg: Config, c: int): int requires cfg.n > 0 { c / cfg.n }
  function CandNum(cfg: Config, c: int): int requires cfg.n > 0 { c % cfg.n }
  function CandRow(cfg: Config, c: int): int requires cfg.n > 0 { c / cfg.n / cfg.n }
  function CandCol(cfg: Config, c: int): int requires cfg.n > 0 { c / cfg.n % cfg.n }

  lemma CellBound(cfg: Config, row: int, col: int)
    requires cfg.n > 0 && 0 <= row < cfg.n && 0 <= col < cfg.n
    ensures 0 <= row * cfg.n + col < cfg.Cells()
  {
    PackBound(row, col, cfg.n, cfg.n);
  }

  /** The Candidate for (row, col, num) lies in [0, n^3) and decodes back. */
  lemma CandRoundTrip(cfg: Config, row: int, col: int, num: int)
    requires cfg.n > 0 && 0 <= row < cfg.n && 0 <= col < cfg.n && 0 <= num < cfg.n
    ensures 0 <= Cand(cfg, row, col, num) < cfg.NumCandidates()
    ensures CandLoc(cfg, Cand(cfg, row, col, num)) == row * cfg.n + col
    ensures CandNum(cfg, Cand(cfg, row, col, num)) == num
    ensures CandRow(cfg, Cand(cfg, row, col, num)) == row
    ensures CandCol(cfg, Cand(cfg, row, col, num)) == col
  {
    var n := cfg.n;
    CellBound(cfg, row, col);
    PackBound(row * n + col, num, n, n * n);
    DivModUnique(Cand(cfg, row, col, num), n, row * n + col, num);
    DivModUnique(row * n + col, n, row, col);
  }

  /** The Candidates of a cell follow those of the cell before it, n to a cell, n^2 to a row. */
  lemma CandNext(cfg: Config, row: int, col: int)
    ensures Cand(cfg, row, col + 1, 0) == Cand(cfg, row, col, 0) + cfg.n
    ensures Cand(cfg, row + 1, 0, 0) == Cand(cfg, row, cfg.n, 0) == Cand(cfg, row, 0, 0) + cfg.n * cfg.n
  {
  }

  /** The head that would follow the last Candidate's is the end of the arena. */
  lemma CandEnd(cfg: Config)
    ensures Head(cfg, Cand(cfg, cfg.n, 0, 0)) == cfg.ArenaSize()
  {
  }

  /** Every Candidate index decodes to an in-range (row, col, num). */
  lemma CandDecode(cfg: Config, c: int)
    requires cfg.n > 0 && 0 <= c < cfg.NumCandidates()
    ensures 0 <= CandRow(cfg, c) < cfg.n && 0 <= CandCol(cfg, c) < cfg.n && 0 <= CandNum(cfg, c) < cfg.n
    ensures c == Cand(cfg, CandRow(cfg, c), CandCol(cfg, c), CandNum(cfg, c))
    ensures CandLoc(cfg, c) == CandRow(cfg, c) * cfg.n + CandCol(cfg, c)
    ensures 0 <= CandLoc(cfg, c) < cfg.Cells()
  {
    var n := cfg.n;
    DivBelow(c, n, n * n);
    DivBelow(c / n, n, n);
  }

  // ---------------------------------------------------------------------------
  // Constraint headers

  /** The four families of Constraint, in the order Candidate.intersections lists them. */
  const CEL := 0
  const ROW := 1
  const COL := 2
  const BOX := 3

  /** The header of the Constraint with index idx (0 <= idx < n^2) in family f. */
  function Header(f: int, idx: int): int { 1 + 4 * idx + f }

  function HeaderFamily(k: int): int { (k - 1) % 4 }
  function HeaderIndex(k: int): int { (k - 1) / 4 }

  predicate IsHeader(cfg: Config, k: int) { 1 <= k <= cfg.NumHeaders() }

  lemma HeaderRoundTrip(cfg: Config, f: int, idx: int)
    requires 0 <= f < 4 && 0 <= idx < cfg.Cells()
    ensures IsHeader(cfg, Header(f, idx))
    ensures HeaderFamily(Header(f, idx)) == f && HeaderIndex(Header(f, idx)) == idx
  {
  }

  lemma HeaderDecode(cfg: Config, k: int)
    requires IsHeader(cfg, k)
    ensures 0 <= HeaderFamily(k) < 4 && 0 <= HeaderIndex(k) < cfg.Cells()
    ensures k == Header(HeaderFamily(k), HeaderIndex(k))
  {
  }

  /** The index, within family f, of the Constraint that Candidate c satisfies. */
  function ConstraintIdx(cfg: Config, f: int, c: int): int
    requires cfg.Valid()
  {
    var n := cfg.n;
    if f == CEL then CandLoc(cfg, c)
    else if f == ROW then CandRow(cfg, c) * n + CandNum(cfg, c)
    else if f == COL then CandCol(cfg, c) * n + CandNum(cfg, c)
    else Box(cfg, CandRow(cfg, c), CandCol(cfg, c)) * n + CandNum(cfg, c)
  }

  lemma ConstraintIdxInRange(cfg: Config, f: int, c: int)
    requires cfg.Valid() && 0 <= c < cfg.NumCandidates()
    ensures 0 <= ConstraintIdx(cfg, f, c) < cfg.Cells()
  {
    var n := cfg.n;
    CandDecode(cfg, c);
    BoxInRange(cfg, CandRow(cfg, c), CandCol(cfg, c));
    PackBound(CandRow(cfg, c), CandNum(cfg, c), n, n);
    PackBound(CandCol(cfg, c), CandNum(cfg, c), n, n);
    PackBound(Box(cfg, CandRow(cfg, c), CandCol(cfg, c)), CandNum(cfg, c), n, n);
  }

  // ---------------------------------------------------------------------------
  // Arena slots

  function Head(cfg: Config, c: int): int { cfg.First() + 5 * c }
  function NodeOf(cfg: Config, c: int, f: int): int { Head(cfg, c) + 1 + f }

  predicate IsNode(cfg: Config, x: int) { cfg.First() <= x < cfg.ArenaSize() }

  /** The Candidate a slot belongs to, and its position 0..4 in the Candidate's row ring. */
  function CandOf(cfg: Config, x: int): int { (x - cfg.First()) / 5 }
  function SlotOf(cfg: Config, x: int): int { (x - cfg.First()) % 5 }

  lemma SlotDecode(cfg: Config, x: int)
    requires cfg.Valid() && IsNode(cfg, x)
    ensures 0 <= CandOf(cfg, x) < cfg.NumCandidates()
    ensures x == Head(cfg, CandOf(cfg, x)) + SlotOf(cfg, x)
  {
  }

  lemma SlotRoundTrip(cfg: Config, c: int, s: int)
    requires cfg.Valid() && 0 <= c < cfg.NumCandidates() && 0 <= s < 5
    ensures IsNode(cfg, Head(cfg, c) + s)
    ensures CandOf(cfg, Head(cfg, c) + s) == c && SlotOf(cfg, Head(cfg, c) + s) == s
  {
  }

  /**
   * The column of a slot: the Root for a Candidate head, otherwise the header
   * of the Constraint that the Node was created under.
   */
  function ColOf(cfg: Config, x: int): int
    requires cfg.Valid()
  {
    var s := SlotOf(cfg, x);
    if s == 0 then 0 else Header(s - 1, ConstraintIdx(cfg, s - 1, CandOf(cfg, x)))
  }

  lemma ColOfInRange(cfg: Config, x: int)
    requires cfg.Valid() && IsNode(cfg, x)
    ensures 0 <= ColOf(cfg, x) <= cfg.NumHeaders()
    ensures SlotOf(cfg, x) == 0 <==> ColOf(cfg, x) == 0
  {
    SlotDecode(cfg, x);
    if SlotOf(cfg, x) != 0 {
      ConstraintIdxInRange(cfg, SlotOf(cfg, x) - 1, CandOf(cfg, x));
    }
  }

  /** The horizontal neighbours in a Candidate's ring head -> cel -> row -> col -> box -> head. */
  function RightOf(cfg: Config, x: int): int
  {
    x - SlotOf(cfg, x) + (SlotOf(cfg, x) + 1) % 5
  }

  function LeftOf(cfg: Config, x: int): int
  {
    x - SlotOf(cfg, x) + (SlotOf(cfg, x) + 4) % 5
  }

  /** The four other members of x's row ring, in the order following right links from x. */
  function RowMates(cfg: Config, x: int): (r: seq<int>)
  {
    var h, s := x - SlotOf(cfg, x), SlotOf(cfg, x);
    [h + (s + 1) % 5, h + (s + 2) % 5, h + (s + 3) % 5, h + (s + 4) % 5]
  }

  // ---------------------------------------------------------------------------
  // Column membership in creation order

  lemma DivMono(i: int, j: int, b: int)
    requires 0 <= i <= j && b > 0
    ensures i / b <= j / b
  {
    if i / b > j / b {
      MulMono(j / b + 1, i / b, b);
    }
  }

  /** The cell at position i (row-major inside the box) of box b. */
  function BoxCellRow(cfg: Config, b: int, i: int): int
    requires cfg.Valid()
  {
    (b / cfg.BoxHeight()) * cfg.BoxHeight() + i / cfg.boxWidth
  }

  function BoxCellCol(cfg: Config, b: int, i: int): int
    requires cfg.Valid()
  {
    (b % cfg.BoxHeight()) * cfg.boxWidth + i % cfg.boxWidth
  }

  /** The position of cell (row, col) inside its box. */
  function BoxPos(cfg: Config, row: int, col: int): int
    requires cfg.Valid()
  {
    (row % cfg.BoxHeight()) * cfg.boxWidth + col % cfg.boxWidth
  }

  /** q*b + r with 0 <= r < b, seen from both sides. */
  lemma Pack(q: int, r: int, b: int, top: int, a: int)
    requires b > 0 && 0 <= r < b && 0 <= q < top && a == q * b + r
    ensures a / b == q && a % b == r && 0 <= a < top * b
  {
    DivModUnique(a, b, q, r);
    PackBound(q, r, b, top);
  }

  /** a in [0, top*b) splits into a quotient in [0, top) and a remainder in [0, b). */
  lemma Unpack(a: int, b: int, top: int)
    requires b > 0 && 0 <= a < top * b
    ensures 0 <= a / b < top && 0 <= a % b < b && a == (a / b) * b + a % b
  {
    DivBelow(a, b, top);
  }

  /** Unpack with the bound's factors the other way round. */
  lemma UnpackSwap(a: int, b: int, top: int)
    requires b > 0 && 0 <= a < b * top
    ensures 0 <= a / b < top && 0 <= a % b < b && a == (a / b) * b + a % b
  {
    assert b * top == top * b;
    Unpack(a, b, top);
  }

  lemma BoxArithRow(bw: int, bh: int, br: int, ir: int, row: int)
    requires bw > 0 && bh > 0 && 0 <= br < bw && 0 <= ir < bh && row == br * bh + ir
    ensures 0 <= row < bw * bh && row / bh == br && row % bh == ir
  {
    Pack(br, ir, bh, bw, row);
  }

  lemma BoxArithCol(bw: int, bh: int, bc: int, ic: int, col: int)
    requires bw > 0 && bh > 0 && 0 <= bc < bh && 0 <= ic < bw && col == bc * bw + ic
    ensures 0 <= col < bw * bh && col / bw == bc && col % bw == ic
  {
    Pack(bc, ic, bw, bh, col);
    assert bh * bw == bw * bh;
  }

  /** Cell i of box b, for boxes bw wide and bh tall, lies in box b and back. */
  lemma BoxArith(bw: int, bh: int, b: int, i: int, row: int, col: int)
    requires bw > 0 && bh > 0 && 0 <= b < bw * bh && 0 <= i < bw * bh
    requires row == (b / bh) * bh + i / bw && col == (b % bh) * bw + i % bw
    ensures 0 <= row < bw * bh && 0 <= col < bw * bh
    ensures col / bw + bh * (row / bh) == b
    ensures i == (row % bh) * bw + col % bw
  {
    Unpack(b, bh, bw);
    UnpackSwap(i, bw, bh);
    BoxArithParts(bw, bh, b, i, b / bh, b % bh, i / bw, i % bw, row, col);
  }

  /** BoxArith with the box and the position in it already split into their row and column parts. */
  lemma BoxArithParts(bw: int, bh: int, b: int, i: int, br: int, bc: int, ir: int, ic: int, row: int, col: int)
    requires bw > 0 && bh > 0 && 0 <= br < bw && 0 <= bc < bh && 0 <= ir < bh && 0 <= ic < bw
    requires b == br * bh + bc && i == ir * bw + ic && row == br * bh + ir && col == bc * bw + ic
    ensures 0 <= row < bw * bh && 0 <= col < bw * bh
    ensures col / bw + bh * (row / bh) == b
    ensures i == (row % bh) * bw + col % bw
  {
    BoxArithRow(bw, bh, br, ir, row);
    BoxArithCol(bw, bh, bc, ic, col);
    assert bh * br == br * bh;
  }

  lemma CellBoxArith(bw: int, bh: int, row: int, col: int, b: int)
    requires bw > 0 && bh > 0 && 0 <= row < bw * bh && 0 <= col < bw * bh
    requires b == col / bw + bh * (row / bh)
    ensures 0 <= b < bw * bh && b / bh == row / bh && b % bh == col / bw
  {
    var br, bc := row / bh, col / bw;
    Unpack(row, bh, bw);
    assert bw * bh == bh * bw;
    Unpack(col, bw, bh);
    assert bh * br == br * bh;
    Pack(br, bc, bh, bw, b);
  }

  lemma CellPosArith(bw: int, bh: int, row: int, col: int, i: int)
    requires bw > 0 && bh > 0 && 0 <= row < bw * bh && 0 <= col < bw * bh
    requires i == (row % bh) * bw + col % bw
    ensures 0 <= i < bw * bh && i / bw == row % bh && i % bw == col % bw
  {
    Pack(row % bh, col % bw, bw, bh, i);
    assert bh * bw == bw * bh;
  }

  /** The box and in-box position of a cell, and the cell they give back. */
  lemma CellArith(bw: int, bh: int, row: int, col: int, b: int, i: int)
    requires bw > 0 && bh > 0 && 0 <= row < bw * bh && 0 <= col < bw * bh
    requires b == col / bw + bh * (row / bh) && i == (row % bh) * bw + col % bw
    ensures 0 <= b < bw * bh && 0 <= i < bw * bh
    ensures (b / bh) * bh + i / bw == row && (b % bh) * bw + i % bw == col
  {
    CellBoxArith(bw, bh, row, col, b);
    CellPosArith(bw, bh, row, col, i);
  }

  /** Within a box, a later position is a later cell in row-major order. */
  lemma BoxOrderArith(bw: int, bh: int, b: int, i: int, j: int, n: int)
    requires bw > 0 && bh > 0 && n == bw * bh && 0 <= b < n && 0 <= i < j < n
    ensures ((b / bh) * bh + i / bw) * n + ((b % bh) * bw + i % bw)
          < ((b / bh) * bh + j / bw) * n + ((b % bh) * bw + j % bw)
  {
    var br, bc := b / bh, b % bh;
    var ir, ic, jr, jc := i / bw, i % bw, j / bw, j % bw;
    Unpack(b, bh, bw);
    assert bw * bh == bh * bw;
    Unpack(i, bw, bh);
    Unpack(j, bw, bh);
    var ri, ci, rj, cj := br * bh + ir, bc * bw + ic, br * bh + jr, bc * bw + jc;
    BoxArithRow(bw, bh, br, ir, ri);
    BoxArithRow(bw, bh, br, jr, rj);
    BoxArithCol(bw, bh, bc, ic, ci);
    BoxArithCol(bw, bh, bc, jc, cj);
    DivMono(i, j, bw);
    if ir < jr {
      PackLess(ri, ci, rj, cj, n);
    } else {
      assert ic < jc;
    }
  }

  lemma BoxCellInBox(cfg: Config, b: int, i: int)
    requires cfg.Valid() && 0 <= b < cfg.n && 0 <= i < cfg.n
    ensures 0 <= BoxCellRow(cfg, b, i) < cfg.n && 0 <= BoxCellCol(cfg, b, i) < cfg.n
    ensures Box(cfg, BoxCellRow(cfg, b, i), BoxCellCol(cfg, b, i)) == b
    ensures BoxPos(cfg, BoxCellRow(cfg, b, i), BoxCellCol(cfg, b, i)) == i
  {
    BoxDims(cfg);
    BoxArith(cfg.boxWidth, cfg.BoxHeight(), b, i, BoxCellRow(cfg, b, i), BoxCellCol(cfg, b, i));
  }

  lemma BoxPosRoundTrip(cfg: Config, row: int, col: int)
    requires cfg.Valid() && 0 <= row < cfg.n && 0 <= col < cfg.n
    ensures 0 <= Box(cfg, row, col) < cfg.n && 0 <= BoxPos(cfg, row, col) < cfg.n
    ensures BoxCellRow(cfg, Box(cfg, row, col), BoxPos(cfg, row, col)) == row
    ensures BoxCellCol(cfg, Box(cfg, row, col), BoxPos(cfg, row, col)) == col
  {
    BoxDims(cfg);
    CellArith(cfg.boxWidth, cfg.BoxHeight(), row, col, Box(cfg, row, col), BoxPos(cfg, row, col));
  }

  /**
   * The Candidate that is the i-th (0 <= i < n) Node created under Constraint idx
   * of family f: Candidates are created in increasing index order, so this is
   * also the i-th Node of that Constraint's column, top to bottom.
   */
  function MemberCand(cfg: Config, f: int, idx: int, i: int): int
    requires cfg.Valid()
  {
    var a, d := idx / cfg.n, idx % cfg.n;
    if f == CEL then idx * cfg.n + i
    else if f == ROW then Cand(cfg, a, i, d)
    else if f == COL then Cand(cfg, i, a, d)
    else Cand(cfg, BoxCellRow(cfg, a, i), BoxCellCol(cfg, a, i), d)
  }

  /** Where Candidate c sits in the column of its family-f Constraint. */
  function MemberPos(cfg: Config, f: int, c: int): int
    requires cfg.Valid()
  {
    if f == CEL then CandNum(cfg, c)
    else if f == ROW then CandCol(cfg, c)
    else if f == COL then CandRow(cfg, c)
    else BoxPos(cfg, CandRow(cfg, c), CandCol(cfg, c))
  }

  lemma MemberCandProps(cfg: Config, f: int, idx: int, i: int)
    requires cfg.Valid() && 0 <= f < 4 && 0 <= idx < cfg.Cells() && 0 <= i < cfg.n
    ensures 0 <= MemberCand(cfg, f, idx, i) < cfg.NumCandidates()
    ensures ConstraintIdx(cfg, f, MemberCand(cfg, f, idx, i)) == idx
    ensures MemberPos(cfg, f, MemberCand(cfg, f, idx, i)) == i
  {
    var n := cfg.n;
    Unpack(idx, n, n);
    var a, d := idx / n, idx % n;
    var c := MemberCand(cfg, f, idx, i);
    if f == CEL {
      assert c == Cand(cfg, a, d, i);
      CandRoundTrip(cfg, a, d, i);
    } else if f == ROW {
      CandRoundTrip(cfg, a, i, d);
    } else if f == COL {
      CandRoundTrip(cfg, i, a, d);
    } else {
      BoxMemberProps(cfg, a, d, i);
    }
  }

  lemma BoxMemberProps(cfg: Config, b: int, d: int, i: int)
    requires cfg.Valid() && 0 <= b < cfg.n && 0 <= d < cfg.n && 0 <= i < cfg.n
    ensures var c := Cand(cfg, BoxCellRow(cfg, b, i), BoxCellCol(cfg, b, i), d);
      && 0 <= c < cfg.NumCandidates()
      && Box(cfg, CandRow(cfg, c), CandCol(cfg, c)) == b && CandNum(cfg, c) == d
      && BoxPos(cfg, CandRow(cfg, c), CandCol(cfg, c)) == i
  {
    BoxCellInBox(cfg, b, i);
    CandRoundTrip(cfg, BoxCellRow(cfg, b, i), BoxCellCol(cfg, b, i), d);
  }

  lemma MemberPosProps(cfg: Config, f: int, c: int)
    requires cfg.Valid() && 0 <= f < 4 && 0 <= c < cfg.NumCandidates()
    ensures 0 <= MemberPos(cfg, f, c) < cfg.n
    ensures MemberCand(cfg, f, ConstraintIdx(cfg, f, c), MemberPos(cfg, f, c)) == c
  {
    var n := cfg.n;
    CandDecode(cfg, c);
    var row, col, num := CandRow(cfg, c), CandCol(cfg, c), CandNum(cfg, c);
    ConstraintIdxInRange(cfg, f, c);
    var idx := ConstraintIdx(cfg, f, c);
    if f == CEL {
      DivModUnique(c, n, idx, num);
    } else if f == ROW {
      DivModUnique(idx, n, row, num);
    } else if f == COL {
      DivModUnique(idx, n, col, num);
    } else {
      BoxInRange(cfg, row, col);
      DivModUnique(idx, n, Box(cfg, row, col), num);
      BoxPosRoundTrip(cfg, row, col);
    }
  }

  lemma MemberCandIncreasing(cfg: Config, f: int, idx: int, i: int, j: int)
    requires cfg.Valid() && 0 <= f < 4 && 0 <= idx < cfg.Cells() && 0 <= i < j < cfg.n
    ensures MemberCand(cfg, f, idx, i) < MemberCand(cfg, f, idx, j)
  {
    var n := cfg.n;
    DivBelow(idx, n, n);
    var a, d := idx / n, idx % n;
    if f == ROW {
      PackLess(a * n + i, d, a * n + j, d, n);
    } else if f == COL {
      PackLess(i, a, j, a, n);
      CellBound(cfg, i, a);
      PackLess(i * n + a, d, j * n + a, d, n);
    } else if f == BOX {
      BoxDims(cfg);
      BoxCellInBox(cfg, a, i);
      BoxCellInBox(cfg, a, j);
      BoxOrderArith(cfg.boxWidth, cfg.BoxHeight(), a, i, j, n);
      var li := BoxCellRow(cfg, a, i) * n + BoxCellCol(cfg, a, i);
      var lj := BoxCellRow(cfg, a, j) * n + BoxCellCol(cfg, a, j);
      CellBound(cfg, BoxCellRow(cfg, a, i), BoxCellCol(cfg, a, i));
      PackLess(li, d, lj, d, n);
    }
  }

  /**
   * The slots of column k (0 for the Root, a header otherwise) in the order the
   * source links them in: the Candidate heads for the Root, the n Nodes of a
   * Constraint otherwise.
   */
  function Members(cfg: Config, k: int): seq<int>
    requires cfg.Valid()
  {
    if k == 0 then seq(cfg.NumCandidates(), c => Head(cfg, c))
    else seq(cfg.n, i => NodeOf(cfg, MemberCand(cfg, HeaderFamily(k), HeaderIndex(k), i), HeaderFamily(k)))
  }

  /** A column's members are slots of that column. */
  lemma MembersInColumn(cfg: Config, k: int, i: int)
    requires cfg.Valid() && 0 <= k <= cfg.NumHeaders() && 0 <= i < |Members(cfg, k)|
    ensures IsNode(cfg, Members(cfg, k)[i]) && ColOf(cfg, Members(cfg, k)[i]) == k
  {
    if k == 0 {
      SlotRoundTrip(cfg, i, 0);
    } else {
      HeaderDecode(cfg, k);
      var f, idx := HeaderFamily(k), HeaderIndex(k);
      MemberCandProps(cfg, f, idx, i);
      SlotRoundTrip(cfg, MemberCand(cfg, f, idx, i), f + 1);
    }
  }

  /** Members are listed in strictly increasing arena order. */
  lemma MembersIncreasing(cfg: Config, k: int, i: int, j: int)
    requires cfg.Valid() && 0 <= k <= cfg.NumHeaders() && 0 <= i < j < |Members(cfg, k)|
    ensures Members(cfg, k)[i] < Members(cfg, k)[j]
  {
    if k != 0 {
      HeaderDecode(cfg, k);
      MemberCandIncreasing(cfg, HeaderFamily(k), HeaderIndex(k), i, j);
    }
  }

  /** Where a slot sits in its column's member list. */
  function MemberIndex(cfg: Config, x: int): int
    requires cfg.Valid()
  {
    if SlotOf(cfg, x) == 0 then CandOf(cfg, x) else MemberPos(cfg, SlotOf(cfg, x) - 1, CandOf(cfg, x))
  }

  /** Every slot is a member of its own column. */
  lemma MemberOfOwnColumn(cfg: Config, x: int)
    requires cfg.Valid() && IsNode(cfg, x)
    ensures 0 <= ColOf(cfg, x) <= cfg.NumHeaders()
    ensures 0 <= MemberIndex(cfg, x) < |Members(cfg, ColOf(cfg, x))|
    ensures Members(cfg, ColOf(cfg, x))[MemberIndex(cfg, x)] == x
  {
    SlotDecode(cfg, x);
    ColOfInRange(cfg, x);
    var c, s := CandOf(cfg, x), SlotOf(cfg, x);
    if s != 0 {
      var f := s - 1;
      ConstraintIdxInRange(cfg, f, c);
      HeaderRoundTrip(cfg, f, ConstraintIdx(cfg, f, c));
      MemberPosProps(cfg, f, c);
    }
  }

  lemma MembersLength(cfg: Config, k: int)
    requires cfg.Valid() && 0 <= k <= cfg.NumHeaders()
    ensures |Members(cfg, k)| == if k == 0 then cfg.NumCandidates() else cfg.n
  {
  }
}
