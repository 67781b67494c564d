/**
 * The text side of a SudokuMatrix: the digit symbols, what get_string shows
 * for a list of choices, the order sorted() puts the choices in, and the
 * exceptions the core raises, as values.
 */
module Grid {
  import opened Layout
  import opened Rings
  import opened Dance
  import opened History

  datatype Option<T> = None | Some(value: T)

  /** The exceptions raised by the core, with the data that decides what happens next. */
  datatype Exception =
    | AssertionError
    | ZeroDivisionError
    | CellViolation(row: int, col: int, digit: int)
    | ValueError
    | IndexError

  datatype Result<T> = Ok(value: T) | Err(error: Exception)

  /**
   * The two asserts of SudokuMatrix.__init__: 1 < n < 35, then n % boxWidth
   * == 0, where a zero width raises ZeroDivisionError instead. For a width
   * that is not negative they let through exactly the valid configurations.
   */
  function ConfigError(n: int, boxWidth: int): (e: Option<Exception>)
    ensures e.Some? ==> e.value == AssertionError || e.value == ZeroDivisionError
    ensures boxWidth >= 0 ==> (e.None? <==> Config(n, boxWidth).Valid())
  {
    if !(1 < n < 35) then Some(AssertionError)
    else if boxWidth == 0 then Some(ZeroDivisionError)
    else if n % boxWidth != 0 then Some(AssertionError)
    else None
  }

  /** The symbol of digit d is DIGITS[d - 1]; an empty cell is shown as '0'. */
  const DIGITS: string := "123456789" + "ABCDEFGHIJKLM" + "NOPQRSTUVWXYZ"

  /** The symbol get_string shows for Candidate c: the symbol of its digit num + 1. */
  function Symbol(cfg: Config, c: int): char
    requires cfg.Valid()
  {
    DIGITS[CandNum(cfg, c)]
  }

  /**
   * g is get_string's text for the entries cs: n^2 cells row by row, each
   * showing the symbol of the entry placed at that location, or '0' when
   * there is none.
   */
  ghost predicate Shows(cfg: Config, g: string, cs: seq<Choice>)
    requires cfg.Valid()
  {
    && |g| == cfg.Cells()
    && (forall j :: 0 <= j < |cs| ==> 0 <= cs[j].location < |g| && g[cs[j].location] == Symbol(cfg, cs[j].cand))
    && (forall i :: 0 <= i < |g| && (forall j :: 0 <= j < |cs| ==> cs[j].location != i) ==> g[i] == '0')
  }

  /** '0' is not the symbol of any digit. */
  lemma ZeroIsNoSymbol(cfg: Config, c: int)
    requires cfg.Valid()
    ensures Symbol(cfg, c) != '0'
  {
  }

  /** Every entry of a placed list lies on the grid. */
  lemma PlacedOnGrid(cfg: Config, cs: seq<Choice>)
    requires cfg.Valid() && Placed(cfg, cs)
    ensures forall j :: 0 <= j < |cs| ==> 0 <= cs[j].location < cfg.Cells()
  {
    forall j | 0 <= j < |cs|
      ensures 0 <= cs[j].location < cfg.Cells()
    {
      CandDecode(cfg, cs[j].cand);
    }
  }

  /** The text shows a list exactly when it shows any reordering of it. */
  lemma ShowsReordered(cfg: Config, g: string, cs: seq<Choice>, ds: seq<Choice>)
    requires cfg.Valid() && multiset(cs) == multiset(ds)
    ensures Shows(cfg, g, cs) <==> Shows(cfg, g, ds)
  {
    forall j | 0 <= j < |cs|
      ensures exists k :: 0 <= k < |ds| && ds[k] == cs[j]
    {
      assert cs[j] in multiset(ds);
    }
    forall j | 0 <= j < |ds|
      ensures exists k :: 0 <= k < |cs| && cs[k] == ds[j]
    {
      assert ds[j] in multiset(cs);
    }
  }

  // ---------------------------------------------------------------------------
  // sorted(self.choices)

  /** Locations strictly increasing along the list. */
  predicate Ascending(cs: seq<Choice>)
  {
    forall i, j :: 0 <= i < j < |cs| ==> cs[i].location < cs[j].location
  }

  predicate DistinctLocs(cs: seq<Choice>)
  {
    forall i, j :: 0 <= i < j < |cs| ==> cs[i].location != cs[j].location
  }

  /** No entry of r has x's location. */
  predicate Fresh(x: Choice, r: seq<Choice>)
  {
    forall y :: y in r ==> y.location != x.location
  }

  /** Insert x into r before the first entry whose location is not smaller. */
  function Insert(x: Choice, r: seq<Choice>): (t: seq<Choice>)
    ensures multiset(t) == multiset(r) + multiset{x}
    ensures Ascending(r) && Fresh(x, r) ==> Ascending(t)
  {
    if |r| == 0 then [x]
    else if x.location <= r[0].location then
      InsertFront(x, r);
      [x] + r
    else
      var t' := Insert(x, r[1..]);
      InsertRest(x, r, t');
      [r[0]] + t'
  }

  lemma InsertFront(x: Choice, r: seq<Choice>)
    requires |r| > 0 && x.location <= r[0].location
    ensures multiset([x] + r) == multiset(r) + multiset{x}
    ensures Ascending(r) && Fresh(x, r) ==> Ascending([x] + r)
  {
    if Ascending(r) && Fresh(x, r) {
      assert r[0] in r;
    }
  }

  lemma InsertRest(x: Choice, r: seq<Choice>, t': seq<Choice>)
    requires |r| > 0 && x.location > r[0].location
    requires multiset(t') == multiset(r[1..]) + multiset{x}
    requires Ascending(r[1..]) && Fresh(x, r[1..]) ==> Ascending(t')
    ensures multiset([r[0]] + t') == multiset(r) + multiset{x}
    ensures Ascending(r) && Fresh(x, r) ==> Ascending([r[0]] + t')
  {
    assert r == [r[0]] + r[1..];
    if Ascending(r) && Fresh(x, r) {
      assert Ascending(r[1..]) && Fresh(x, r[1..]);
      InsertRestOrdered(x, r, t');
    }
  }

  /** The first entry of an ascending r stays ahead of x and of everything after it. */
  lemma InsertRestOrdered(x: Choice, r: seq<Choice>, t': seq<Choice>)
    requires |r| > 0 && x.location > r[0].location && Ascending(r) && Ascending(t')
    requires multiset(t') == multiset(r[1..]) + multiset{x}
    ensures Ascending([r[0]] + t')
  {
    var t := [r[0]] + t';
    forall j | 0 < j < |t|
      ensures t[0].location < t[j].location
    {
      var y := t'[j - 1];
      assert y in multiset(t');
      if y != x {
        assert y in r[1..];
        var k :| 0 <= k < |r| - 1 && r[1..][k] == y;
        assert r[k + 1] == y;
      }
    }
  }

  /**
   * sorted(self.choices) on entries with distinct locations: the same entries,
   * by increasing location (Python's tuple order compares locations first).
   */
  function SortByLocation(cs: seq<Choice>): (r: seq<Choice>)
    ensures multiset(r) == multiset(cs)
    ensures DistinctLocs(cs) ==> Ascending(r)
  {
    if |cs| == 0 then []
    else
      var rest := SortByLocation(cs[1..]);
      SortStep(cs, rest);
      Insert(cs[0], rest)
  }

  lemma SortStep(cs: seq<Choice>, rest: seq<Choice>)
    requires |cs| > 0 && multiset(rest) == multiset(cs[1..])
    requires DistinctLocs(cs[1..]) ==> Ascending(rest)
    ensures multiset(rest) + multiset{cs[0]} == multiset(cs)
    ensures DistinctLocs(cs) ==> Ascending(rest) && Fresh(cs[0], rest)
  {
    assert cs == [cs[0]] + cs[1..];
    if DistinctLocs(cs) {
      forall y | y in rest
        ensures y.location != cs[0].location
      {
        assert y in multiset(cs[1..]);
        var k :| 0 <= k < |cs| - 1 && cs[1..][k] == y;
        assert cs[k + 1] == y;
      }
    }
  }
}
