/**
 * The filled cells handed to set_grid: how add_filled_cell reads the digit of
 * a cell, given as an integer or as text, which Candidate it chooses for it or
 * which exception it raises, and what set_grid's row-major loading loop makes
 * of a whole grid.
 */
module Givens {
  import opened Layout
  import opened Rings
  import opened Dance
  import opened History
  import opened Grid

  /** One cell of the grid given to set_grid: an element of a list of integers, or text. */
  datatype Entry = Int(value: int) | Text(text: string)

  // ---------------------------------------------------------------------------
  // int(s) and int(s, base)

  /** The value of a character as a digit of int(s, base), for bases up to 36; -1 if it is none. */
  function DigitValue(ch: char): (v: int)
    ensures -1 <= v < 36
    ensures '0' <= ch <= '9' ==> v == ch as int - '0' as int
  {
    if '0' <= ch <= '9' then ch as int - '0' as int
    else if 'a' <= ch <= 'z' then ch as int - 'a' as int + 10
    else if 'A' <= ch <= 'Z' then ch as int - 'A' as int + 10
    else -1
  }

  /** The value of a nonempty run of decimal digits; None if s is empty or holds anything else. */
  function DecimalValue(s: string): Option<nat>
    decreases |s|
  {
    if |s| == 0 then None
    else
      var d := DigitValue(s[|s| - 1]);
      if !('0' <= s[|s| - 1] <= '9') then None
      else if |s| == 1 then Some(d)
      else match DecimalValue(s[..|s| - 1])
        case None => None
        case Some(v) => Some(10 * v + d)
  }

  /** The decimal digits of v, most significant first, without leading zeros. */
  function DecimalText(v: nat): (s: string)
    ensures |s| > 0
    decreases v
  {
    var last := ['0' + (v % 10) as char];
    if v < 10 then last else DecimalText(v / 10) + last
  }

  /** Reading the decimal text of a number gives the number back. */
  lemma {:induction false} DecimalRoundTrip(v: nat)
    ensures DecimalValue(DecimalText(v)) == Some(v)
    decreases v
  {
    var s := DecimalText(v);
    var last := '0' + (v % 10) as char;
    assert s[|s| - 1] == last;
    if v >= 10 {
      DecimalRoundTrip(v / 10);
      assert s[..|s| - 1] == DecimalText(v / 10);
    }
  }

  /** int(s) for text of two or more characters: an optional sign, then decimal digits. */
  function ParseInt(s: string): Option<int>
  {
    if |s| > 0 && (s[0] == '+' || s[0] == '-') then
      match DecimalValue(s[1..])
      case None => None
      case Some(v) =>
        var m: int := v;
        Some(if s[0] == '-' then -m else m)
    else
      match DecimalValue(s)
      case None => None
      case Some(v) => Some(v)
  }

  /** A number written in decimal, with a minus sign when negative, reads back as itself. */
  lemma ParseIntRoundTrip(v: int)
    ensures ParseInt(if v < 0 then "-" + DecimalText(-v) else DecimalText(v)) == Some(v)
  {
    if v < 0 {
      DecimalRoundTrip(-v);
      assert ("-" + DecimalText(-v))[1..] == DecimalText(-v);
    } else {
      DecimalRoundTrip(v);
      var s := DecimalText(v);
      assert s[0] != '+' && s[0] != '-' by {
        DecimalDigitsOnly(v, 0);
      }
    }
  }

  /** Decimal text holds decimal digits only. */
  lemma {:induction false} DecimalDigitsOnly(v: nat, i: int)
    requires 0 <= i < |DecimalText(v)|
    ensures '0' <= DecimalText(v)[i] <= '9'
    decreases v
  {
    if v >= 10 && i < |DecimalText(v / 10)| {
      DecimalDigitsOnly(v / 10, i);
    }
  }

  /**
   * The digit add_filled_cell reads from a cell: an integer as it is; text of
   * two or more characters through int(s); a single character through
   * int(s, n + 1); None where Python raises a ValueError.
   */
  function CellDigit(cfg: Config, e: Entry): Option<int>
  {
    match e
    case Int(v) => Some(v)
    case Text(s) =>
      if |s| > 1 then ParseInt(s)
      else if |s| == 1 && 0 <= DigitValue(s[0]) < cfg.n + 1 then Some(DigitValue(s[0]))
      else None
  }

  /** The symbol get_string shows for a digit reads back as that digit, and '0' as the empty cell. */
  lemma SymbolRoundTrip(cfg: Config, d: int)
    requires cfg.Valid() && 1 <= d <= cfg.n
    ensures CellDigit(cfg, Text([DIGITS[d - 1]])) == Some(d)
    ensures CellDigit(cfg, Text("0")) == Some(0)
  {
    SymbolValue(d - 1);
  }

  /** DIGITS spells 1 .. 9 and then the letters A .. Z. */
  lemma SymbolValue(i: int)
    requires 0 <= i < |DIGITS|
    ensures DigitValue(DIGITS[i]) == i + 1
  {
    if i < 9 {
      DecimalSymbols(i);
    } else {
      LetterSymbols(i - 9);
    }
  }

  /** The first nine symbols are the decimal digits 1 .. 9, in order. */
  lemma DecimalSymbols(i: int)
    requires 0 <= i < 9
    ensures DIGITS[i] as int == '1' as int + i
  {
    assert DIGITS[i] == "123456789"[i];
  }

  /** The symbols after the ninth are the capital letters A .. Z, in order. */
  lemma LetterSymbols(i: int)
    requires 0 <= i < 26
    ensures DIGITS[9 + i] as int == 'A' as int + i
  {
    if i < 13 {
      assert DIGITS[9 + i] == "ABCDEFGHIJKLM"[i];
    } else {
      assert DIGITS[9 + i] == "NOPQRSTUVWXYZ"[i - 13];
    }
  }

  // ---------------------------------------------------------------------------
  // add_filled_cell

  /** What add_filled_cell does with a cell: nothing, choose a Candidate, or raise. */
  datatype Target = Empty | Given(cand: int) | Fail(error: Exception)

  /**
   * candidates[i] for a list of N Candidates: Python counts a negative index
   * from the end, and raises IndexError outside -N .. N - 1.
   */
  function ListIndex(i: int, N: int): (t: Target)
    ensures t.Given? ==> 0 <= t.cand < N && (t.cand == i || t.cand == i + N)
    ensures t.Fail? ==> t.error == IndexError && (i < -N || N <= i)
    ensures !t.Empty?
  {
    if 0 <= i < N then Given(i)
    else if -N <= i < 0 then Given(i + N)
    else Fail(IndexError)
  }

  /**
   * add_filled_cell as written: 0 leaves the cell empty, a digit above n
   * raises CellViolation, and every other digit, negative ones included,
   * picks candidates[row * n^2 + col * n + digit - 1].
   */
  function CellTargetAsWritten(cfg: Config, row: int, col: int, e: Entry): Target
    requires cfg.Valid()
  {
    match CellDigit(cfg, e)
    case None => Fail(ValueError)
    case Some(digit) =>
      if digit == 0 then Empty
      else if digit > cfg.n then Fail(CellViolation(row, col, digit))
      else ListIndex(row * cfg.n * cfg.n + col * cfg.n + (digit - 1), cfg.NumCandidates())
  }

  /**
   * add_filled_cell with digits below 0 rejected like digits above n: 0 leaves
   * the cell empty, a digit outside 1 .. n raises CellViolation, and a digit
   * d picks candidates[row * n^2 + col * n + d - 1].
   */
  function CellTarget(cfg: Config, row: int, col: int, e: Entry): (t: Target)
    requires cfg.Valid()
    ensures t.Given? ==> 0 <= t.cand < cfg.NumCandidates()
  {
    match CellDigit(cfg, e)
    case None => Fail(ValueError)
    case Some(digit) =>
      if digit == 0 then Empty
      else if digit < 0 || digit > cfg.n then Fail(CellViolation(row, col, digit))
      else ListIndex(row * cfg.n * cfg.n + col * cfg.n + (digit - 1), cfg.NumCandidates())
  }

  /**
   * On the grid, a cell given digit d (1 <= d <= n) chooses the Candidate that
   * puts d in that very cell, and every other digit is empty, a violation or a
   * ValueError.
   */
  lemma CellTargetOnGrid(cfg: Config, row: int, col: int, e: Entry)
    requires cfg.Valid() && 0 <= row < cfg.n && 0 <= col < cfg.n
    ensures var t := CellTarget(cfg, row, col, e);
      match CellDigit(cfg, e)
      case None => t == Fail(ValueError)
      case Some(d) =>
        if d == 0 then t == Empty
        else if 1 <= d <= cfg.n then
          && t == Given(Cand(cfg, row, col, d - 1))
          && CandLoc(cfg, t.cand) == row * cfg.n + col && CandNum(cfg, t.cand) == d - 1
          && CandRow(cfg, t.cand) == row && CandCol(cfg, t.cand) == col
        else t == Fail(CellViolation(row, col, d))
  {
    match CellDigit(cfg, e)
    case None =>
    case Some(d) =>
      if 1 <= d <= cfg.n {
        CandRoundTrip(cfg, row, col, d - 1);
        CandIndex(cfg, row, col, d - 1);
      }
  }

  /** The flat index add_filled_cell computes is the Candidate of (row, col, num). */
  lemma CandIndex(cfg: Config, row: int, col: int, num: int)
    requires cfg.Valid()
    ensures row * cfg.n * cfg.n + col * cfg.n + num == Cand(cfg, row, col, num)
  {
    assert (row * cfg.n + col) * cfg.n == row * cfg.n * cfg.n + col * cfg.n;
  }

  /** The doctest of add_filled_cell: digit 3 in the top-left cell of a 9 x 9 grid is location 0, num 2. */
  lemma AddFilledCellDoctest()
    ensures CellTarget(Config(9, 3), 0, 0, Int(3)) == Given(2)
    ensures ChoiceOf(Config(9, 3), 2) == Choice(0, 2) && CandNum(Config(9, 3), 2) == 2
  {
  }

  /**
   * As written, a negative digit slips through: -1 in cell (0, 1) of a 9 x 9
   * grid chooses the Candidate for digit 8 in cell (0, 0).
   */
  lemma NegativeDigitAsWritten()
    ensures CellTargetAsWritten(Config(9, 3), 0, 1, Text("-1")) == Given(7)
    ensures CandLoc(Config(9, 3), 7) == 0 && CandNum(Config(9, 3), 7) == 7
    ensures CellTarget(Config(9, 3), 0, 1, Text("-1")) == Fail(CellViolation(0, 1, -1))
  {
    assert DecimalValue("1") == Some(1);
    assert Text("-1").text[1..] == "1";
  }

  /** Both versions agree on every digit from 0 to n and on unreadable text. */
  lemma CellTargetAgrees(cfg: Config, row: int, col: int, e: Entry)
    requires cfg.Valid()
    requires CellDigit(cfg, e).None? || CellDigit(cfg, e).value >= 0
    ensures CellTarget(cfg, row, col, e) == CellTargetAsWritten(cfg, row, col, e)
  {
  }

  // ---------------------------------------------------------------------------
  // set_grid

  /** A cell that add_filled_cell fills: its digit lies in 1 .. n. */
  predicate Fills(cfg: Config, e: Entry)
  {
    CellDigit(cfg, e).Some? && 1 <= CellDigit(cfg, e).value <= cfg.n
  }

  /** The Candidate for digit num + 1 in the cell at flat index k is k * n + num. */
  lemma FlatCand(cfg: Config, k: int, num: int)
    requires cfg.Valid() && 0 <= k < cfg.Cells() && 0 <= num < cfg.n
    ensures 0 <= k * cfg.n + num < cfg.NumCandidates()
    ensures CandLoc(cfg, k * cfg.n + num) == k && CandNum(cfg, k * cfg.n + num) == num
  {
    PackBound(k, num, cfg.n, cfg.n * cfg.n);
    DivModUnique(k * cfg.n + num, cfg.n, k, num);
  }

  /** What set_grid's loop has done after cells 0 .. k - 1: the choices made and the exception that stopped it, if any. */
  datatype Loaded = Loaded(cs: seq<Choice>, err: Option<Exception>)

  /**
   * set_grid's loop over the first k cells in row-major order, cell by cell:
   * a digit d in 1 .. n at cell i adds the entry for digit d in cell i, text
   * that is not a number ends the loading with ValueError, and every other
   * digit, 0 or out of range, adds nothing.
   */
  function Load(cfg: Config, es: seq<Entry>, k: int): Loaded
    requires cfg.Valid() && 0 <= k <= |es|
    decreases k
  {
    if k == 0 then Loaded([], None)
    else
      var prev := Load(cfg, es, k - 1);
      if prev.err.Some? then prev
      else match CellDigit(cfg, es[k - 1])
        case None => Loaded(prev.cs, Some(ValueError))
        case Some(d) =>
          if 1 <= d <= cfg.n then Loaded(prev.cs + [Choice(k - 1, (k - 1) * cfg.n + (d - 1))], None)
          else prev
  }

  /**
   * The only exception that escapes set_grid's loop on a grid of n^2 cells is
   * the ValueError of text that is not a number; CellViolation is caught.
   */
  lemma {:induction false} LoadRaises(cfg: Config, es: seq<Entry>, k: int)
    requires cfg.Valid() && 0 <= k <= |es|
    ensures Load(cfg, es, k).err.Some? ==> Load(cfg, es, k).err == Some(ValueError)
    decreases k
  {
    if k > 0 {
      LoadRaises(cfg, es, k - 1);
    }
  }

  /** The givens do not conflict: no two of the Candidates set_grid chooses share a Constraint. */
  ghost predicate Consistent(cfg: Config, es: seq<Entry>)
    requires cfg.Valid()
  {
    |es| == cfg.Cells() ==> Disjoint(cfg, Load(cfg, es, |es|).cs)
  }

  /**
   * Cell (row, col) is the cell at flat index row * n + col, and add_filled_cell
   * on it followed by set_grid's catching of CellViolation is the next step of
   * Load: nothing for an empty cell or a violation, the entry of the chosen
   * Candidate, or the end of loading with any other exception.
   */
  lemma LoadFollowsCell(cfg: Config, es: seq<Entry>, row: int, col: int, k: int)
    requires cfg.Valid() && 0 <= row < cfg.n && 0 <= col < cfg.n && k == row * cfg.n + col && 0 <= k < |es|
    requires Load(cfg, es, k).err.None?
    ensures var prev, r := Load(cfg, es, k), Load(cfg, es, k + 1);
      match CellTarget(cfg, row, col, es[k])
      case Empty => r == prev
      case Given(c) => r == Loaded(prev.cs + [ChoiceOf(cfg, c)], None)
      case Fail(e) => r == if e.CellViolation? then prev else Loaded(prev.cs, Some(e))
  {
    CellTargetOnGrid(cfg, row, col, es[k]);
    var d := CellDigit(cfg, es[k]);
    if d.Some? && 1 <= d.value <= cfg.n {
      CandIndex(cfg, row, col, d.value - 1);
      assert Cand(cfg, row, col, d.value - 1) == k * cfg.n + (d.value - 1);
    }
  }

  /**
   * One step of set_grid's loop, on cell k of the grid: a digit d in 1 .. n
   * adds the entry for digit d at location k, text that is not a number
   * stops the loading with ValueError, and any other digit adds nothing.
   */
  lemma LoadStep(cfg: Config, es: seq<Entry>, k: int)
    requires cfg.Valid() && 0 <= k < |es| && k < cfg.Cells() && Load(cfg, es, k).err.None?
    ensures var prev, r, d := Load(cfg, es, k), Load(cfg, es, k + 1), CellDigit(cfg, es[k]);
      if d.None? then r == Loaded(prev.cs, Some(ValueError))
      else if 1 <= d.value <= cfg.n then
        var c := k * cfg.n + (d.value - 1);
        && r == Loaded(prev.cs + [Choice(k, c)], None)
        && 0 <= c < cfg.NumCandidates() && ChoiceOf(cfg, c) == Choice(k, c) && CandNum(cfg, c) == d.value - 1
      else r == prev
  {
    var d := CellDigit(cfg, es[k]);
    if d.Some? && 1 <= d.value <= cfg.n {
      FlatCand(cfg, k, d.value - 1);
    }
  }

  /** Every entry of cs is the Candidate for the digit given at its location, one of the first k cells. */
  ghost predicate LoadedFrom(cfg: Config, es: seq<Entry>, k: int, cs: seq<Choice>)
    requires cfg.Valid() && k <= |es|
  {
    forall j :: 0 <= j < |cs| ==>
      && 0 <= cs[j].cand < cfg.NumCandidates() && cs[j] == ChoiceOf(cfg, cs[j].cand)
      && 0 <= cs[j].location < k && CellDigit(cfg, es[cs[j].location]) == Some(CandNum(cfg, cs[j].cand) + 1)
  }

  /** Appending the entry for a cell past all of cs keeps the entries sourced and in row-major order. */
  lemma LoadedAppend(cfg: Config, es: seq<Entry>, k: int, cs: seq<Choice>, c: int)
    requires cfg.Valid() && 0 <= k < |es| && LoadedFrom(cfg, es, k, cs) && Ascending(cs)
    requires 0 <= c < cfg.NumCandidates() && ChoiceOf(cfg, c) == Choice(k, c)
    requires CellDigit(cfg, es[k]) == Some(CandNum(cfg, c) + 1)
    ensures LoadedFrom(cfg, es, k + 1, cs + [Choice(k, c)]) && Ascending(cs + [Choice(k, c)])
  {
  }

  /** Entries drawn from the first k cells are drawn from the first k' >= k cells. */
  lemma LoadedGrow(cfg: Config, es: seq<Entry>, k: int, k': int, cs: seq<Choice>)
    requires cfg.Valid() && 0 <= k <= k' <= |es| && LoadedFrom(cfg, es, k, cs)
    ensures LoadedFrom(cfg, es, k', cs)
  {
  }

  /** Entries with increasing locations, each the entry of its own Candidate, are placed. */
  lemma AscendingPlaced(cfg: Config, es: seq<Entry>, k: int, cs: seq<Choice>)
    requires cfg.Valid() && 0 <= k <= |es| && LoadedFrom(cfg, es, k, cs) && Ascending(cs)
    ensures Placed(cfg, cs)
  {
  }

  /**
   * Loading the first k cells chooses, in row-major order, Candidates that
   * show the digit given in their own cell.
   */
  lemma {:induction false} LoadSound(cfg: Config, es: seq<Entry>, k: int)
    requires cfg.Valid() && 0 <= k <= |es| && k <= cfg.Cells()
    ensures LoadedFrom(cfg, es, k, Load(cfg, es, k).cs) && Ascending(Load(cfg, es, k).cs)
    decreases k
  {
    if k > 0 {
      LoadSound(cfg, es, k - 1);
      var prev := Load(cfg, es, k - 1);
      if prev.err.None? {
        LoadStep(cfg, es, k - 1);
      }
      if prev.err.None? && Fills(cfg, es[k - 1]) {
        var c := (k - 1) * cfg.n + (CellDigit(cfg, es[k - 1]).value - 1);
        LoadedAppend(cfg, es, k - 1, prev.cs, c);
        assert Load(cfg, es, k).cs == prev.cs + [Choice(k - 1, c)];
      } else {
        assert Load(cfg, es, k).cs == prev.cs;
        LoadedGrow(cfg, es, k - 1, k, prev.cs);
      }
    }
  }

  /** The Candidates chosen by loading lie in distinct cells. */
  lemma LoadPlaced(cfg: Config, es: seq<Entry>, k: int)
    requires cfg.Valid() && 0 <= k <= |es| && k <= cfg.Cells()
    ensures Placed(cfg, Load(cfg, es, k).cs)
  {
    LoadSound(cfg, es, k);
    AscendingPlaced(cfg, es, k, Load(cfg, es, k).cs);
  }

  /** Unless loading stopped, every cell among the first k given a digit in 1 .. n has its entry. */
  lemma {:induction false} LoadComplete(cfg: Config, es: seq<Entry>, k: int, i: int) returns (j: int)
    requires cfg.Valid() && 0 <= i < k <= |es| && k <= cfg.Cells()
    requires Load(cfg, es, k).err.None? && Fills(cfg, es[i])
    ensures 0 <= j < |Load(cfg, es, k).cs| && Load(cfg, es, k).cs[j].location == i
    decreases k
  {
    var prev := Load(cfg, es, k - 1);
    LoadStep(cfg, es, k - 1);
    if i < k - 1 {
      j := LoadComplete(cfg, es, k - 1, i);
    } else {
      j := |prev.cs|;
    }
  }

  /**
   * The text of the entries loaded from a whole grid, as get_string shows
   * it: a cell given a digit d in 1 .. n shows the symbol of d, every other
   * cell shows '0'.
   */
  lemma LoadedText(cfg: Config, es: seq<Entry>, g: string)
    requires cfg.Valid() && |es| == cfg.Cells() && Load(cfg, es, |es|).err.None?
    requires Shows(cfg, g, Load(cfg, es, |es|).cs)
    ensures |g| == |es|
    ensures forall k :: 0 <= k < |g| ==>
      g[k] == if Fills(cfg, es[k]) then DIGITS[CellDigit(cfg, es[k]).value - 1] else '0'
  {
    var cs := Load(cfg, es, |es|).cs;
    LoadSound(cfg, es, |es|);
    forall k | 0 <= k < |g|
      ensures g[k] == if Fills(cfg, es[k]) then DIGITS[CellDigit(cfg, es[k]).value - 1] else '0'
    {
      if Fills(cfg, es[k]) {
        var j := LoadComplete(cfg, es, |es|, k);
        assert g[cs[j].location] == Symbol(cfg, cs[j].cand);
      } else {
        forall j | 0 <= j < |cs|
          ensures cs[j].location != k
        {
          CandDecode(cfg, cs[j].cand);
        }
      }
    }
  }

  /** Loading stops, and then with ValueError, exactly when one of the first k cells is not a number. */
  lemma {:induction false} LoadError(cfg: Config, es: seq<Entry>, k: int)
    requires cfg.Valid() && 0 <= k <= |es| && k <= cfg.Cells()
    ensures Load(cfg, es, k).err.Some? <==> exists i :: 0 <= i < k && CellDigit(cfg, es[i]).None?
    ensures Load(cfg, es, k).err.Some? ==> Load(cfg, es, k).err == Some(ValueError)
    decreases k
  {
    if k > 0 {
      LoadError(cfg, es, k - 1);
      if Load(cfg, es, k - 1).err.None? {
        LoadStep(cfg, es, k - 1);
      }
    }
  }

  /** Once an exception stops the loading, later cells change nothing. */
  lemma {:induction false} LoadStops(cfg: Config, es: seq<Entry>, k: int, m: int)
    requires cfg.Valid() && 0 <= k <= m <= |es| && Load(cfg, es, k).err.Some?
    ensures Load(cfg, es, m) == Load(cfg, es, k)
    decreases m
  {
    if m > k {
      LoadStops(cfg, es, k, m - 1);
    }
  }

  /** The choices of a shorter prefix are conflict-free when those of a longer one are. */
  lemma {:induction false} LoadDisjoint(cfg: Config, es: seq<Entry>, k: int, m: int)
    requires cfg.Valid() && 0 <= k <= m <= |es| && Disjoint(cfg, Load(cfg, es, m).cs)
    ensures Disjoint(cfg, Load(cfg, es, k).cs)
    decreases m
  {
    if m > k {
      var prev := Load(cfg, es, m - 1).cs;
      var cur := Load(cfg, es, m).cs;
      if cur != prev {
        assert cur[..|cur| - 1] == prev;
      }
      LoadDisjoint(cfg, es, k, m - 1);
    }
  }

  /**
   * With conflict-free givens, the Candidate set_grid chooses for cell k
   * shares no Constraint with those chosen for the cells before it.
   */
  lemma GivenFresh(cfg: Config, es: seq<Entry>, row: int, col: int, k: int, c: int)
    requires cfg.Valid() && Consistent(cfg, es) && |es| == cfg.Cells()
    requires 0 <= row < cfg.n && 0 <= col < cfg.n && k == row * cfg.n + col && 0 <= k < |es|
    requires Load(cfg, es, k).err.None? && CellTarget(cfg, row, col, es[k]) == Given(c)
    ensures CoveredBy(cfg, Load(cfg, es, k).cs) !! Elems(ConsList(cfg, c))
  {
    LoadDisjoint(cfg, es, k + 1, |es|);
    LoadFollowsCell(cfg, es, row, col, k);
    var cs := Load(cfg, es, k).cs;
    assert Load(cfg, es, k + 1).cs == cs + [ChoiceOf(cfg, c)];
    assert (cs + [ChoiceOf(cfg, c)])[..|cs|] == cs;
  }

  /**
   * In a state reached by choosing cs from a state where every Constraint
   * was open, a Candidate sharing no Constraint with cs has all four open.
   */
  lemma FreshOpen(cfg: Config, trail: seq<Dlx>, cs: seq<Choice>, cur: Dlx, c: int)
    requires Chain(cfg, trail, cs, cur) && cfg.Valid() && Good(cfg, cur) && Good(cfg, Base(trail, cur))
    requires Uncovered(cfg, Base(trail, cur).covered) == AllHeaderSet(cfg)
    requires 0 <= c < cfg.NumCandidates() && CoveredBy(cfg, cs) !! Elems(ConsList(cfg, c))
    ensures AllOpen(cur, ConsList(cfg, c))
  {
    ChainUncovered(cfg, trail, cs, cur);
    ConsListProps(cfg, c);
    ElemsMember(ConsList(cfg, c));
    AllHeaderSetMember(cfg);
    forall i | 0 <= i < 4
      ensures Open(cur, ConsList(cfg, c)[i])
    {
      var h := ConsList(cfg, c)[i];
      assert h in Elems(ConsList(cfg, c));
      OpenUncovered(cfg, cur.covered, h);
    }
  }
}
