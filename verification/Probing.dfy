/** The open-addressed cell table of a JSON object, as pure data: `cells` holds item indices (or
    INVALID), `ixs[i]` is the cell of item i and `hs[i]` the hash of its name. */
module Probing {
  const INVALID: int := -1

  /** `hash & (capacity - 1)`; MaskIsBitAnd in this module justifies the remainder. */
  function Mask(x: nat, capacity: nat): (ix: nat)
    requires capacity > 0
    ensures ix < capacity
  {
    x % capacity
  }

  predicate PowerOfTwo(n: nat) {
    n == 1 || (n > 1 && n % 2 == 0 && PowerOfTwo(n / 2))
  }

  /** Bitwise conjunction of two naturals. */
  function BitAnd(x: nat, y: nat): nat {
    if x == 0 || y == 0 then 0
    else (x % 2) * (y % 2) + 2 * BitAnd(x / 2, y / 2)
  }

  /** Masking with a power of two minus one takes the remainder. */
  lemma {:induction false} MaskIsBitAnd(x: nat, capacity: nat)
    requires PowerOfTwo(capacity)
    ensures Mask(x, capacity) == BitAnd(x, capacity - 1)
  {
    hide Mask, BitAnd;
    if capacity > 1 && x > 0 {
      var half := capacity / 2;
      MaskIsBitAnd(x / 2, half);
      HalveMask(x, capacity, half);
      BitAndOdd(x, capacity - 1, half);
    } else {
      NothingMasked(x, capacity);
    }
  }

  lemma NothingMasked(x: nat, capacity: nat)
    requires capacity == 1 || (x == 0 && capacity > 0)
    ensures Mask(x, capacity) == BitAnd(x, capacity - 1)
  {
  }

  lemma BitAndOdd(x: nat, y: nat, half: nat)
    requires x > 0 && half > 0 && y == 2 * half - 1
    ensures BitAnd(x, y) == x % 2 + 2 * BitAnd(x / 2, half - 1)
  {
    assert y / 2 == half - 1 && y % 2 == 1;
  }

  lemma HalveMask(x: nat, capacity: nat, half: nat)
    requires half > 0 && capacity == 2 * half
    ensures Mask(x, capacity) == x % 2 + 2 * Mask(x / 2, half)
  {
    var q, r := x / 2 / half, x / 2 % half;
    assert x / 2 == half * q + r;
    assert x == capacity * q + (2 * r + x % 2) by { assert capacity * q == 2 * (half * q); }
    RemainderIs(x, capacity, q, 2 * r + x % 2);
  }

  lemma RemainderIs(x: nat, m: nat, q: nat, r: nat)
    requires r < m && x == m * q + r
    ensures x % m == r
  {
    SameQuotient(m, x / m, x % m, q, r);
  }

  lemma SameQuotient(m: nat, k: nat, a: nat, q: nat, r: nat)
    requires a < m && r < m && m * k + a == m * q + r
    ensures k == q
  {
    if k < q {
      Grows(m, k, q);
    } else if q < k {
      Grows(m, q, k);
    }
  }

  lemma {:induction false} Grows(m: nat, k: nat, q: nat)
    requires k < q
    ensures m * k + m <= m * q
    decreases q
  {
    assert m * q == m * (q - 1) + m;
    if k < q - 1 {
      Grows(m, k, q - 1);
    }
  }

  /** The cell `d` steps after cell `c`, wrapping at the end of the table. */
  function Step(c: nat, d: nat, capacity: nat): (ix: nat)
    requires c < capacity && d < capacity
    ensures ix < capacity
  {
    if c + d < capacity then c + d else c + d - capacity
  }

  lemma MaskIsStep(c: nat, d: nat, capacity: nat)
    requires c < capacity && d < capacity
    ensures Mask(c + d, capacity) == Step(c, d, capacity)
  {
    var s := Step(c, d, capacity);
    RemainderIs(c + d, capacity, if c + d < capacity then 0 else 1, s);
  }

  /** How many steps lead from cell `a` to cell `c`. */
  function Distance(a: nat, c: nat, capacity: nat): (d: nat)
    requires a < capacity && c < capacity
    ensures d < capacity && Step(a, d, capacity) == c
  {
    if c >= a then c - a else c - a + capacity
  }

  /** Cell `c` lies on the probe run that starts at `a` and stops before `b`. */
  predicate Between(a: nat, c: nat, b: nat) {
    if a <= b then a <= c < b else c >= a || c < b
  }

  /** `cells` and `ixs` are mutually inverse. */
  ghost predicate Inverse(cells: seq<int>, ixs: seq<nat>) {
    && (forall i :: 0 <= i < |ixs| ==> ixs[i] < |cells| && cells[ixs[i]] == i)
    && (forall c :: 0 <= c < |cells| ==>
          cells[c] == INVALID || (0 <= cells[c] < |ixs| && ixs[cells[c]] == c))
  }

  /** No item is cut off from the home cell of its hash by an empty cell. */
  ghost predicate Reachable(cells: seq<int>, ixs: seq<nat>, hs: seq<nat>)
    requires |cells| > 0
  {
    forall i, c :: 0 <= i < |ixs| && i < |hs| && 0 <= c < |cells| && Between(Mask(hs[i], |cells|), c, ixs[i])
      ==> cells[c] != INVALID
  }

  ghost predicate Linked(cells: seq<int>, ixs: seq<nat>, hs: seq<nat>) {
    && |ixs| == |hs|
    && |ixs| < |cells|
    && Inverse(cells, ixs)
    && Reachable(cells, ixs, hs)
  }

  lemma EmptyIsLinked(cells: seq<int>)
    requires cells != [] && forall c :: 0 <= c < |cells| ==> cells[c] == INVALID
    ensures Linked(cells, [], [])
  {
  }

  lemma LinkedItem(cells: seq<int>, ixs: seq<nat>, hs: seq<nat>, i: nat)
    requires Linked(cells, ixs, hs) && i < |ixs|
    ensures ixs[i] < |cells| && cells[ixs[i]] == i
  {
  }

  lemma LinkedCell(cells: seq<int>, ixs: seq<nat>, hs: seq<nat>, c: nat)
    requires Linked(cells, ixs, hs) && c < |cells| && cells[c] != INVALID
    ensures 0 <= cells[c] < |ixs| && ixs[cells[c]] == c
  {
  }

  lemma {:induction false} PigeonHole(ixs: seq<nat>, n: nat)
    requires forall c :: 0 <= c < n ==> c in ixs
    ensures n <= |ixs|
  {
    if n > 0 {
      assert n - 1 in ixs;
      var k :| 0 <= k < |ixs| && ixs[k] == n - 1;
      var fewer := ixs[..k] + ixs[k + 1..];
      forall c | 0 <= c < n - 1
        ensures c in fewer
      {
        assert c in ixs;
        var t :| 0 <= t < |ixs| && ixs[t] == c;
        assert fewer[if t < k then t else t - 1] == c;
      }
      PigeonHole(fewer, n - 1);
    }
  }

  /** A table with fewer items than cells has an empty cell. */
  lemma EmptyCell(cells: seq<int>, ixs: seq<nat>) returns (e: nat)
    requires |ixs| < |cells| && Inverse(cells, ixs)
    ensures e < |cells| && cells[e] == INVALID
  {
    if forall c :: 0 <= c < |cells| ==> cells[c] != INVALID {
      forall c | 0 <= c < |cells|
        ensures c in ixs
      {
        assert ixs[cells[c]] == c;
      }
      PigeonHole(ixs, |cells|);
      assert false;
    }
    e :| 0 <= e < |cells| && cells[e] == INVALID;
  }

  /** A new item in the first empty cell of its probe run keeps the table linked. */
  lemma InsertKeepsLinked(cells: seq<int>, ixs: seq<nat>, hs: seq<nat>, ix: nat, h: nat)
    requires Linked(cells, ixs, hs) && |ixs| + 1 < |cells|
    requires ix < |cells| && cells[ix] == INVALID
    requires forall c :: 0 <= c < |cells| && Between(Mask(h, |cells|), c, ix) ==> cells[c] != INVALID
    ensures Linked(cells[ix := |ixs|], ixs + [ix], hs + [h])
  {
    var cs, xs, gs := cells[ix := |ixs|], ixs + [ix], hs + [h];
    forall i, c | 0 <= i < |xs| && 0 <= c < |cs| && Between(Mask(gs[i], |cs|), c, xs[i])
      ensures cs[c] != INVALID
    {
      if i < |ixs| {
        assert xs[i] == ixs[i] && gs[i] == hs[i];
      }
    }
  }

  /** As Inverse, but cell `hole` is not looked at and holds no item. */
  ghost predicate InverseOffHole(cells: seq<int>, ixs: seq<nat>, hole: nat) {
    && (forall t :: 0 <= t < |ixs| ==> ixs[t] < |cells| && ixs[t] != hole && cells[ixs[t]] == t)
    && (forall c :: 0 <= c < |cells| && c != hole ==>
          cells[c] == INVALID || (0 <= cells[c] < |ixs| && ixs[cells[c]] == c))
  }

  /** In distances from the empty cell `e` the probe run of every item is an interval of cells that are
      occupied or the hole, and no run ending at or before cell `j` contains the hole. */
  ghost predicate RunsOffHole(cells: seq<int>, ixs: seq<nat>, hs: seq<nat>, e: nat, hole: nat, j: nat)
    requires |ixs| == |hs| && e < |cells| && hole < |cells| && j < |cells|
    requires forall t :: 0 <= t < |ixs| ==> ixs[t] < |cells|
  {
    var n := |cells|;
    && (forall t :: 0 <= t < |ixs| ==> Distance(e, Mask(hs[t], n), n) <= Distance(e, ixs[t], n))
    && (forall t, c ::
          (0 <= t < |ixs| && 0 <= c < n && c != hole
           && Distance(e, Mask(hs[t], n), n) <= Distance(e, c, n) < Distance(e, ixs[t], n))
          ==> cells[c] != INVALID)
    && (forall t :: 0 <= t < |ixs| && Distance(e, ixs[t], n) <= Distance(e, j, n) ==>
          !(Distance(e, Mask(hs[t], n), n) <= Distance(e, hole, n) < Distance(e, ixs[t], n)))
  }

  /** The state of the backward-shift loop: cell `i` is the hole (its content is stale), the cells up
      to `j` have been scanned, and `e` is a cell that stays empty throughout, so that no probe run
      crosses it. */
  ghost predicate Shifting(cells: seq<int>, ixs: seq<nat>, hs: seq<nat>, e: nat, i: nat, j: nat) {
    var n := |cells|;
    && |ixs| == |hs|
    && e < n && i < n && j < n && i != e && cells[e] == INVALID
    && Distance(e, i, n) <= Distance(e, j, n)
    && InverseOffHole(cells, ixs, i)
    && RunsOffHole(cells, ixs, hs, e, i, j)
  }

  /** `xs` is `ixs` with the last element moved to position `item`. */
  ghost predicate LastMoved<T>(xs: seq<T>, ixs: seq<T>, item: nat)
    requires item < |ixs|
  {
    && |xs| == |ixs| - 1
    && forall t :: 0 <= t < |xs| ==> xs[t] == ixs[if t == item then |xs| else t]
  }

  /** Moving the last item into the slot of the removed one starts the shift at the removed cell. */
  lemma ShiftStarts(cells: seq<int>, ixs: seq<nat>, hs: seq<nat>, item: nat, e: nat,
                    cs: seq<int>, xs: seq<nat>, gs: seq<nat>)
    requires Linked(cells, ixs, hs)
    requires item < |ixs| && e < |cells| && cells[e] == INVALID
    requires LastMoved(xs, ixs, item) && LastMoved(gs, hs, item)
    requires |cs| == |cells|
    requires forall c :: 0 <= c < |cs| ==> cs[c] == if item < |xs| && c == ixs[|xs|] then item else cells[c]
    ensures Shifting(cs, xs, gs, e, ixs[item], ixs[item])
  {
    LinkedItem(cells, ixs, hs, item);
    LinkedItem(cells, ixs, hs, |xs|);
    assert InverseOffHole(cs, xs, ixs[item]);
    RunsAreIntervals(cells, ixs, hs, e);
    hide Mask, Linked, Inverse, Distance, Reachable, InverseOffHole;
    assert RunsOffHole(cs, xs, gs, e, ixs[item], ixs[item]);
  }

  /** Seen from an empty cell, every probe run is an interval of occupied cells. */
  lemma RunsAreIntervals(cells: seq<int>, ixs: seq<nat>, hs: seq<nat>, e: nat)
    requires Linked(cells, ixs, hs)
    requires e < |cells| && cells[e] == INVALID
    ensures forall t :: 0 <= t < |ixs| ==>
              Distance(e, Mask(hs[t], |cells|), |cells|) <= Distance(e, ixs[t], |cells|)
    ensures forall t, c ::
              (0 <= t < |ixs| && 0 <= c < |cells|
               && Distance(e, Mask(hs[t], |cells|), |cells|) <= Distance(e, c, |cells|) < Distance(e, ixs[t], |cells|))
              ==> cells[c] != INVALID
  {
    var n := |cells|;
    forall t | 0 <= t < |ixs|
      ensures Distance(e, Mask(hs[t], n), n) <= Distance(e, ixs[t], n)
    {
      assert !Between(Mask(hs[t], n), e, ixs[t]);
    }
    forall t, c | 0 <= t < |ixs| && 0 <= c < n
            && Distance(e, Mask(hs[t], n), n) <= Distance(e, c, n) < Distance(e, ixs[t], n)
      ensures cells[c] != INVALID
    {
      assert Between(Mask(hs[t], n), c, ixs[t]);
    }
  }

  /** What the scan of the next cell may rely on. */
  lemma ScanFacts(cells: seq<int>, ixs: seq<nat>, hs: seq<nat>, e: nat, i: nat, j: nat)
    requires Shifting(cells, ixs, hs, e, i, j)
    ensures var j' := Step(j, 1, |cells|);
            && j' != i
            && (cells[j'] != INVALID ==>
                  && 0 <= cells[j'] < |ixs| && ixs[cells[j']] == j'
                  && Distance(e, j', |cells|) == Distance(e, j, |cells|) + 1)
  {
    assert Step(j, 1, |cells|) != e ==> Distance(e, Step(j, 1, |cells|), |cells|) == Distance(e, j, |cells|) + 1;
  }

  /** The test of the shift loop picks exactly the items whose home does not lie behind the hole: seen from an empty
      cell, the home is at or in front of the hole, wherever the table wraps. */
  lemma TestMeansNotBehind(e: nat, i: nat, j: nat, k: nat, n: nat)
    requires e < n && i < n && j < n && k < n && j != i
    requires 0 < Distance(e, i, n) < Distance(e, j, n) && Distance(e, k, n) <= Distance(e, j, n)
    ensures (j > i && (k <= i || k > j)) || (j < i && k <= i && k > j) <==> Distance(e, k, n) <= Distance(e, i, n)
  {
  }

  /** The scanned item stays: its home lies behind the hole. */
  lemma ShiftSkips(cells: seq<int>, ixs: seq<nat>, hs: seq<nat>, e: nat, i: nat, j: nat, j': nat)
    requires Shifting(cells, ixs, hs, e, i, j)
    requires j' == Step(j, 1, |cells|) && cells[j'] != INVALID && j' != i
    requires var k := Mask(hs[cells[j']], |cells|);
             !((j' > i && (k <= i || k > j')) || (j' < i && k <= i && k > j'))
    ensures Shifting(cells, ixs, hs, e, i, j')
  {
    var n := |cells|;
    ScanFacts(cells, ixs, hs, e, i, j);
    HoleIsNotEmptyCell(e, i, n);
    TestMeansNotBehind(e, i, j', Mask(hs[cells[j']], n), n);
    hide Mask, Distance, InverseOffHole;
    forall t | 0 <= t < |ixs| && Distance(e, ixs[t], n) <= Distance(e, j', n)
      ensures !(Distance(e, Mask(hs[t], n), n) <= Distance(e, i, n) < Distance(e, ixs[t], n))
    {
      if Distance(e, ixs[t], n) > Distance(e, j, n) {
        SameDistance(e, ixs[t], j', n);
        SameItem(cells, ixs, i, t, j');
      }
    }
  }

  lemma HoleIsNotEmptyCell(e: nat, i: nat, n: nat)
    requires e < n && i < n && i != e
    ensures 0 < Distance(e, i, n)
  {
  }

  lemma SameDistance(e: nat, a: nat, b: nat, n: nat)
    requires e < n && a < n && b < n && Distance(e, a, n) == Distance(e, b, n)
    ensures a == b
  {
  }

  lemma SameItem(cells: seq<int>, ixs: seq<nat>, hole: nat, t: nat, c: nat)
    requires InverseOffHole(cells, ixs, hole) && t < |ixs| && ixs[t] == c
    ensures cells[c] == t
  {
  }

  /** The scanned item moves into the hole, and its old cell becomes the hole. */
  lemma ShiftMoves(cells: seq<int>, ixs: seq<nat>, hs: seq<nat>, e: nat, i: nat, j: nat, j': nat)
    requires Shifting(cells, ixs, hs, e, i, j)
    requires j' == Step(j, 1, |cells|) && cells[j'] != INVALID && j' != i
    requires var k := Mask(hs[cells[j']], |cells|);
             (j' > i && (k <= i || k > j')) || (j' < i && k <= i && k > j')
    ensures Shifting(cells[i := cells[j']], ixs[cells[j'] := i], hs, e, j', j')
  {
    var n, item := |cells|, cells[j'];
    ScanFacts(cells, ixs, hs, e, i, j);
    HoleIsNotEmptyCell(e, i, n);
    TestMeansNotBehind(e, i, j', Mask(hs[item], n), n);
    MoveKeepsInverse(cells, ixs, i, j');
    MoveKeepsRuns(cells, ixs, hs, e, i, j, j');
  }

  lemma MoveKeepsInverse(cells: seq<int>, ixs: seq<nat>, i: nat, j': nat)
    requires InverseOffHole(cells, ixs, i) && i < |cells| && j' < |cells| && j' != i && cells[j'] != INVALID
    ensures InverseOffHole(cells[i := cells[j']], ixs[cells[j'] := i], j')
  {
  }

  lemma MoveKeepsRuns(cells: seq<int>, ixs: seq<nat>, hs: seq<nat>, e: nat, i: nat, j: nat, j': nat)
    requires Shifting(cells, ixs, hs, e, i, j) && j' < |cells| && j' != i
    requires 0 <= cells[j'] < |ixs| && ixs[cells[j']] == j'
    requires Distance(e, j', |cells|) == Distance(e, j, |cells|) + 1
    requires Distance(e, Mask(hs[cells[j']], |cells|), |cells|) <= Distance(e, i, |cells|)
    ensures RunsOffHole(cells[i := cells[j']], ixs[cells[j'] := i], hs, e, j', j')
  {
    hide Distance, Mask;
    var n, item := |cells|, cells[j'];
    var cs, xs := cells[i := item], ixs[item := i];
    forall t, c | 0 <= t < |xs| && 0 <= c < n && c != j'
            && Distance(e, Mask(hs[t], n), n) <= Distance(e, c, n) < Distance(e, xs[t], n)
      ensures cs[c] != INVALID
    {
      if c != i {
        assert Distance(e, xs[t], n) <= Distance(e, ixs[t], n);
      }
    }
    forall t | 0 <= t < |xs| && Distance(e, xs[t], n) <= Distance(e, j', n)
      ensures !(Distance(e, Mask(hs[t], n), n) <= Distance(e, j', n) < Distance(e, xs[t], n))
    {
    }
  }

  /** At the first empty cell the hole can be emptied. */
  lemma ShiftEnds(cells: seq<int>, ixs: seq<nat>, hs: seq<nat>, e: nat, i: nat, j: nat)
    requires Shifting(cells, ixs, hs, e, i, j)
    requires |ixs| < |cells| && cells[Step(j, 1, |cells|)] == INVALID && Step(j, 1, |cells|) != i
    ensures Linked(cells[i := INVALID], ixs, hs)
  {
  }
}
