/**
 * Circular doubly-linked lists stored as two index arrays (prev and next),
 * and order-preserving filtering of a fixed list of candidates members.
 * A list r is a ring of (prev, next) when following next from r[i] gives
 * r[i+1], following prev undoes it, and the last element wraps to the first.
 */
module Rings {

  /** Pairwise distinct elements. */
  predicate Distinct(s: seq<int>)
  {
    forall i, j :: 0 <= i < j < |s| ==> s[i] != s[j]
  }

  /** Strictly increasing elements. */
  predicate Increasing(s: seq<int>)
  {
    forall i, j :: 0 <= i < j < |s| ==> s[i] < s[j]
  }

  /** The set of elements of ws, built up from the front. */
  function Elems(ws: seq<int>): set<int>
  {
    if |ws| == 0 then {} else Elems(ws[..|ws| - 1]) + {ws[|ws| - 1]}
  }

  lemma {:induction false} ElemsMember(ws: seq<int>)
    ensures forall x :: x in Elems(ws) <==> x in ws
  {
    if |ws| > 0 {
      ElemsMember(ws[..|ws| - 1]);
      assert ws == ws[..|ws| - 1] + [ws[|ws| - 1]];
    }
  }

  /** A list without repeats has as many elements as entries. */
  lemma {:induction false} ElemsCard(ws: seq<int>)
    requires Distinct(ws)
    ensures |Elems(ws)| == |ws|
  {
    if |ws| > 0 {
      var init := ws[..|ws| - 1];
      ElemsCard(init);
      ElemsMember(init);
      assert ws[|ws| - 1] !in init;
    }
  }

  /** A subset as large as its superset is the whole superset. */
  lemma SubsetFull(A: set<int>, B: set<int>)
    requires A <= B && |A| == |B|
    ensures A == B
  {
    var D := B - A;
    assert B == A + D && A * D == {};
  }

  /** The elements of ms that lie in S, in their order in ms. */
  function Filter(ms: seq<int>, S: set<int>): (r: seq<int>)
    ensures |r| <= |ms|
  {
    if |ms| == 0 then []
    else (if ms[0] in S then [ms[0]] else []) + Filter(ms[1..], S)
  }

  /** The filtered list holds exactly the members that lie in S. */
  lemma {:induction false} FilterMember(ms: seq<int>, S: set<int>)
    ensures forall x :: x in Filter(ms, S) <==> x in ms && x in S
  {
    if |ms| > 0 {
      FilterMember(ms[1..], S);
      var t := ms[1..];
      assert ms == [ms[0]] + t;
      assert Filter(ms, S) == (if ms[0] in S then [ms[0]] else []) + Filter(t, S);
    }
  }

  lemma {:induction false} FilterIncreasing(ms: seq<int>, S: set<int>)
    requires Increasing(ms)
    ensures Increasing(Filter(ms, S))
  {
    if |ms| > 0 {
      FilterIncreasing(ms[1..], S);
      FilterMember(ms[1..], S);
      var h, t := if ms[0] in S then [ms[0]] else [], Filter(ms[1..], S);
      assert Filter(ms, S) == h + t;
      forall y | y in t
        ensures ms[0] < y
      {
        var i :| 0 <= i < |ms[1..]| && ms[1..][i] == y;
        assert ms[i + 1] == y;
      }
      forall i, j | 0 <= i < j < |h + t|
        ensures (h + t)[i] < (h + t)[j]
      {
        if i < |h| {
          assert (h + t)[j] in t;
        } else {
          assert (h + t)[i] == t[i - |h|] && (h + t)[j] == t[j - |h|];
        }
      }
    }
  }

  /** Filtering sees only which members lie in the set. */
  lemma {:induction false} FilterSame(ms: seq<int>, S: set<int>, T: set<int>)
    requires forall x :: x in ms ==> (x in S <==> x in T)
    ensures Filter(ms, S) == Filter(ms, T)
  {
    if |ms| > 0 {
      var m0 := ms[0];
      assert m0 in ms;
      forall x | x in ms[1..]
        ensures x in S <==> x in T
      {
        assert x in ms;
      }
      FilterSame(ms[1..], S, T);
      assert Filter(ms, S) == (if ms[0] in S then [ms[0]] else []) + Filter(ms[1..], S);
      assert Filter(ms, T) == (if ms[0] in T then [ms[0]] else []) + Filter(ms[1..], T);
    }
  }

  /** When every member is in S, filtering keeps all of them. */
  lemma {:induction false} FilterAll(ms: seq<int>, S: set<int>)
    requires forall x :: x in ms ==> x in S
    ensures Filter(ms, S) == ms
  {
    if |ms| > 0 {
      var m0 := ms[0];
      assert m0 in ms;
      forall x | x in ms[1..]
        ensures x in S
      {
        assert x in ms;
      }
      FilterAll(ms[1..], S);
      assert Filter(ms, S) == [ms[0]] + Filter(ms[1..], S);
      assert ms == [ms[0]] + ms[1..];
    }
  }

  lemma Assoc(a: seq<int>, b: seq<int>, c: seq<int>)
    ensures a + (b + c) == (a + b) + c
  {
  }

  /**
   * Taking one member x out of S takes exactly x out of the filtered list;
   * A and B are what precedes and follows it.
   */
  lemma {:induction false} FilterSplit(ms: seq<int>, S: set<int>, x: int) returns (A: seq<int>, B: seq<int>)
    requires Increasing(ms) && x in ms && x in S
    ensures Filter(ms, S) == A + [x] + B
    ensures Filter(ms, S - {x}) == A + B
  {
    var t := ms[1..];
    if ms[0] == x {
      forall y | y in t
        ensures y in S <==> y in S - {x}
      {
        var i :| 0 <= i < |t| && t[i] == y;
        assert ms[i + 1] == y;
      }
      FilterSame(t, S, S - {x});
      A, B := [], Filter(t, S);
      assert Filter(ms, S) == [x] + Filter(t, S);
      assert Filter(ms, S - {x}) == Filter(t, S - {x});
    } else {
      var i :| 0 <= i < |ms| && ms[i] == x;
      assert t[i - 1] == x;
      var A', B' := FilterSplit(t, S, x);
      var h := if ms[0] in S then [ms[0]] else [];
      assert Filter(ms, S) == h + Filter(t, S);
      assert Filter(ms, S - {x}) == h + Filter(t, S - {x});
      A, B := h + A', B';
      Assoc(h, A' + [x], B');
      Assoc(h, A', [x]);
      Assoc(h, A', B');
    }
  }

  /**
   * Adding a member x to S appends x to the filtered list when every member
   * already in S lies before x.
   */
  lemma {:induction false} FilterAppend(ms: seq<int>, S: set<int>, x: int)
    requires Increasing(ms) && x in ms && x !in S
    requires forall y :: y in ms && y in S ==> y < x
    ensures Filter(ms, S + {x}) == Filter(ms, S) + [x]
  {
    if ms[0] == x {
      forall y | y in ms[1..]
        ensures y !in S + {x}
      {
        var i :| 0 <= i < |ms[1..]| && ms[1..][i] == y;
        assert ms[i + 1] == y;
      }
      FilterNone(ms[1..], S + {x});
      FilterNone(ms[1..], S);
      assert Filter(ms, S) == Filter(ms[1..], S);
    } else {
      assert x in ms[1..];
      var m0 := ms[0];
      assert m0 in ms;
      FilterAppend(ms[1..], S, x);
    }
  }

  lemma {:induction false} FilterNone(ms: seq<int>, S: set<int>)
    requires forall y :: y in ms ==> y !in S
    ensures Filter(ms, S) == []
  {
    if |ms| > 0 {
      var m0 := ms[0];
      assert m0 in ms;
      forall y | y in ms[1..]
        ensures y !in S
      {
        assert y in ms;
      }
      FilterNone(ms[1..], S);
      assert Filter(ms, S) == Filter(ms[1..], S);
    }
  }

  // ---------------------------------------------------------------------------
  // Rings

  predicate Ring(prev: seq<int>, next: seq<int>, r: seq<int>)
  {
    && |r| > 0
    && (forall i :: 0 <= i < |r| ==> 0 <= r[i] < |next| && r[i] < |prev|)
    && (forall i :: 0 <= i < |r| - 1 ==> next[r[i]] == r[i + 1] && prev[r[i + 1]] == r[i])
    && next[r[|r| - 1]] == r[0] && prev[r[0]] == r[|r| - 1]
  }

  /** The successor of r[i] is r[i+1], wrapping from the last element to the first. */
  lemma RingNext(prev: seq<int>, next: seq<int>, r: seq<int>, i: int)
    requires Ring(prev, next, r) && 0 <= i < |r|
    ensures next[r[i]] == (if i + 1 < |r| then r[i + 1] else r[0])
    ensures prev[r[i]] == (if i > 0 then r[i - 1] else r[|r| - 1])
  {
    if i > 0 {
      assert next[r[i - 1]] == r[i] && prev[r[i]] == r[i - 1];
    }
  }

  /** A ring is untouched by changes to links of indices outside it. */
  lemma RingFrame(prev: seq<int>, next: seq<int>, prev': seq<int>, next': seq<int>, r: seq<int>)
    requires Ring(prev, next, r) && |prev'| == |prev| && |next'| == |next|
    requires forall i :: 0 <= i < |r| ==> prev'[r[i]] == prev[r[i]] && next'[r[i]] == next[r[i]]
    ensures Ring(prev', next', r)
  {
    forall i | 0 <= i < |r| - 1
      ensures next'[r[i]] == r[i + 1] && prev'[r[i + 1]] == r[i]
    {
      assert next'[r[i]] == next[r[i]] && prev'[r[i + 1]] == prev[r[i + 1]];
    }
    assert next'[r[|r| - 1]] == next[r[|r| - 1]] && prev'[r[0]] == prev[r[0]];
  }

  /** Position i of a list once the element at position p is dropped. */
  function Skip(i: int, p: int): int
  {
    if i < p then i else i + 1
  }

  lemma SkipIndex(r: seq<int>, p: int)
    requires 0 <= p < |r|
    ensures forall i :: 0 <= i < |r| - 1 ==> (r[..p] + r[p + 1..])[i] == r[Skip(i, p)]
  {
  }

  /** The neighbours of r[p] in a ring of distinct elements, p > 0. */
  lemma RingNeighbours(prev: seq<int>, next: seq<int>, r: seq<int>, p: int)
    requires Ring(prev, next, r) && Distinct(r) && 0 < p < |r|
    ensures prev[r[p]] == r[p - 1] && next[r[p]] == (if p + 1 < |r| then r[p + 1] else r[0])
    ensures prev[r[p]] != r[p] && next[r[p]] != r[p]
    ensures next[prev[r[p]]] == r[p] && prev[next[r[p]]] == r[p]
  {
    RingNext(prev, next, r, p);
    RingNext(prev, next, r, p - 1);
    if p + 1 < |r| {
      RingNext(prev, next, r, p + 1);
    } else {
      RingNext(prev, next, r, 0);
    }
  }

  /** One link of the ring that remains once r[p] is unlinked. */
  lemma RingRemovePair(prev: seq<int>, next: seq<int>, r: seq<int>, p: int, i: int)
    requires Ring(prev, next, r) && Distinct(r) && 0 < p < |r| && 0 <= i < |r| - 2
    ensures 0 <= next[r[p]] < |prev| && 0 <= prev[r[p]] < |next|
    ensures var x := r[p];
      var prev', next' := prev[next[x] := prev[x]], next[prev[x] := next[x]];
      next'[r[Skip(i, p)]] == r[Skip(i + 1, p)] && prev'[r[Skip(i + 1, p)]] == r[Skip(i, p)]
  {
    RingNeighbours(prev, next, r, p);
    var a, b := Skip(i, p), Skip(i + 1, p);
    if i < p - 1 {
      assert r[a] != r[p - 1] && r[b] != r[(p + 1) % |r|];
      RingNext(prev, next, r, a);
    } else if i == p - 1 {
      assert a == p - 1 && b == p + 1;
    } else {
      assert r[a] != r[p - 1] && r[b] != r[p + 1];
      RingNext(prev, next, r, a);
    }
  }

  /**
   * Unlinking r[p] (its predecessor's next skips to its successor, and the
   * successor's prev skips back) removes exactly r[p] from a ring of distinct
   * elements, provided it is not the ring's first element.
   */
  lemma RingRemoveAt(prev: seq<int>, next: seq<int>, r: seq<int>, p: int)
    requires Ring(prev, next, r) && Distinct(r) && 0 < p < |r|
    ensures 0 <= next[r[p]] < |prev| && 0 <= prev[r[p]] < |next|
    ensures var x := r[p];
      Ring(prev[next[x] := prev[x]], next[prev[x] := next[x]], r[..p] + r[p + 1..])
  {
    var x := r[p];
    RingNeighbours(prev, next, r, p);
    var prev', next' := prev[next[x] := prev[x]], next[prev[x] := next[x]];
    var r' := r[..p] + r[p + 1..];
    SkipIndex(r, p);
    forall i | 0 <= i < |r'|
      ensures 0 <= r'[i] < |next'| && r'[i] < |prev'|
    {
      assert r'[i] == r[Skip(i, p)];
    }
    forall i | 0 <= i < |r'| - 1
      ensures next'[r'[i]] == r'[i + 1] && prev'[r'[i + 1]] == r'[i]
    {
      RingRemovePair(prev, next, r, p, i);
    }
    var last := r'[|r'| - 1];
    if p + 1 < |r| {
      assert last == r[|r| - 1] && r'[0] == r[0];
      assert last != r[p - 1] && r[0] != r[p + 1];
      RingNext(prev, next, r, |r| - 1);
    } else {
      assert last == r[p - 1] && r'[0] == r[0];
    }
  }

  /** RingRemoveAt for a ring given as A + [x] + B. */
  lemma RingRemove(prev: seq<int>, next: seq<int>, A: seq<int>, x: int, B: seq<int>)
    requires Ring(prev, next, A + [x] + B) && Distinct(A + [x] + B) && |A| > 0
    requires 0 <= x < |prev| && x < |next|
    ensures 0 <= prev[x] < |next| && 0 <= next[x] < |prev|
    ensures prev[x] == A[|A| - 1] && next[x] == (if |B| > 0 then B[0] else A[0])
    ensures prev[x] != x && next[x] != x && next[prev[x]] == x && prev[next[x]] == x
    ensures Ring(prev[next[x] := prev[x]], next[prev[x] := next[x]], A + B)
  {
    var r := A + [x] + B;
    var p := |A|;
    assert r[p] == x && r[p - 1] == A[|A| - 1] && r[0] == A[0];
    if |B| > 0 {
      assert r[p + 1] == B[0];
    }
    RingNeighbours(prev, next, r, p);
    RingRemoveAt(prev, next, r, p);
    assert r[..p] + r[p + 1..] == A + B;
  }

  /**
   * Linking x in before the ring's first element (x's next becomes the first
   * element, x's prev the old last one) appends x to the ring.
   */
  lemma RingAppend(prev: seq<int>, next: seq<int>, r: seq<int>, x: int)
    requires Ring(prev, next, r) && Distinct(r) && x !in r && 0 <= x < |prev| && x < |next|
    ensures Ring(prev[r[0] := x][x := r[|r| - 1]], next[x := r[0]][r[|r| - 1] := x], r + [x])
  {
    var r' := r + [x];
    var prev', next' := prev[r[0] := x][x := r[|r| - 1]], next[x := r[0]][r[|r| - 1] := x];
    forall i | 0 <= i < |r'| - 1
      ensures next'[r'[i]] == r'[i + 1] && prev'[r'[i + 1]] == r'[i]
    {
      if i < |r| - 1 {
        assert r[i] != x && r[i + 1] != x && r[i] != r[|r| - 1] && r[i + 1] != r[0];
        RingNext(prev, next, r, i);
        RingNext(prev, next, r, i + 1);
      }
    }
  }

  /** Walking a ring [c] + F: down from F[p - 1] (or c) is F[p] (or c), up from F[p] (or c) is F[p - 1] (or c). */
  lemma RingWalk(up: seq<int>, down: seq<int>, c: int, F: seq<int>, p: int)
    requires Ring(up, down, [c] + F) && 0 <= p <= |F|
    ensures 0 <= c < |down| && c < |up| && forall i :: 0 <= i < |F| ==> 0 <= F[i] < |down| && F[i] < |up|
    ensures down[if p == 0 then c else F[p - 1]] == if p < |F| then F[p] else c
    ensures up[if p == |F| then c else F[p]] == if p > 0 then F[p - 1] else c
  {
    var r := [c] + F;
    forall i | 0 <= i < |F|
      ensures 0 <= F[i] < |down| && F[i] < |up|
    {
      assert F[i] == r[i + 1];
    }
    assert r[0] == c;
    RingNext(up, down, r, p);
    assert r[p] == if p == 0 then c else F[p - 1];
    if p < |F| {
      RingNext(up, down, r, p + 1);
      assert r[p + 1] == F[p];
    } else {
      RingNext(up, down, r, 0);
    }
  }
}
