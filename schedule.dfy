/** The scheduler's enumeration of units of work: for every pair of agent positions
    i < j, `num_matches` units, each of which will itself play `num_matches` games. */
module Schedule {

  /** One unit of work: agents[i] (player "0") against agents[j] (player "1"). */
  datatype Pair = Pair(i: nat, j: nat)

  /** `m` copies of the unit `p`. */
  function Repeat(p: Pair, m: nat): (r: seq<Pair>)
    ensures |r| == m
  {
    if m == 0 then [] else Repeat(p, m - 1) + [p]
  }

  /** The units of row `i` for the partners i+1, ..., j-1, in that order. */
  function Row(i: nat, j: nat, m: nat): seq<Pair>
    decreases j
  {
    if j <= i + 1 then [] else Row(i, j - 1, m) + Repeat(Pair(i, j - 1), m)
  }

  /** The units of rows 0, ..., i-1 over `n` agents, in submission order. */
  function Rows(i: nat, n: nat, m: nat): seq<Pair>
  {
    if i == 0 then [] else Rows(i - 1, n, m) + Row(i - 1, n, m)
  }

  /** Every unit submitted for `n` agents and `m` matches per pair, in submission order. */
  function Units(n: nat, m: nat): seq<Pair> {
    Rows(n, n, m)
  }

  lemma {:induction false} RepeatCount(p: Pair, m: nat, q: Pair)
    ensures multiset(Repeat(p, m))[q] == if q == p then m else 0
  {
    if m > 0 {
      RepeatCount(p, m - 1, q);
    }
  }

  lemma {:induction false} RowCount(i: nat, j: nat, m: nat, q: Pair)
    ensures multiset(Row(i, j, m))[q] == if q.i == i && i < q.j < j then m else 0
    decreases j
  {
    if j > i + 1 {
      RowCount(i, j - 1, m, q);
      RepeatCount(Pair(i, j - 1), m, q);
    }
  }

  lemma {:induction false} RowsCount(i: nat, n: nat, m: nat, q: Pair)
    ensures multiset(Rows(i, n, m))[q] == if q.i < i && q.i < q.j < n then m else 0
  {
    if i == 0 {
      assert Rows(i, n, m) == [];
    } else {
      var k := i - 1;
      var before, row := Rows(k, n, m), Row(k, n, m);
      assert Rows(i, n, m) == before + row;
      RowsCount(k, n, m, q);
      RowCount(k, n, m, q);
      var x, y := multiset(before)[q], multiset(row)[q];
      assert multiset(Rows(i, n, m))[q] == x + y;
    }
  }

  /** Every pair i < j < n is submitted exactly m times, and nothing else is submitted:
      no unit has i == j and none has j < i. */
  lemma UnitsCount(n: nat, m: nat, q: Pair)
    ensures multiset(Units(n, m))[q] == if q.i < q.j < n then m else 0
  {
    RowsCount(n, n, m, q);
  }

  lemma {:induction false} RowLength(i: nat, j: nat, m: nat)
    ensures |Row(i, j, m)| == if j <= i + 1 then 0 else (j - i - 1) * m
    decreases j
  {
    if j > i + 1 {
      RowLength(i, j - 1, m);
      assert (j - i - 2) * m + m == (j - i - 1) * m;
    }
  }

  lemma {:induction false} RowsLength(i: nat, n: nat, m: nat)
    requires i <= n
    ensures 2 * |Rows(i, n, m)| == i * (2 * n - 1 - i) * m
  {
    if i == 0 {
      assert Rows(i, n, m) == [];
    } else {
      var k := i - 1;
      var before, row := Rows(k, n, m), Row(k, n, m);
      assert Rows(i, n, m) == before + row;
      RowsLength(k, n, m);
      RowLength(k, n, m);
      assert |row| == (n - k - 1) * m;
      RowsStep(k, n, m, 2 * |before|);
    }
  }

  lemma RowsStep(k: int, n: int, m: int, twice: int)
    requires twice == k * (2 * n - 1 - k) * m
    ensures twice + 2 * ((n - k - 1) * m) == (k + 1) * (2 * n - 1 - (k + 1)) * m
  {
    assert k * (2 * n - 1 - k) + 2 * (n - k - 1) == (k + 1) * (2 * n - 1 - (k + 1));
    calc {
      twice + 2 * ((n - k - 1) * m);
      k * (2 * n - 1 - k) * m + 2 * (n - k - 1) * m;
      (k * (2 * n - 1 - k) + 2 * (n - k - 1)) * m;
    }
  }

  /** n agents give n(n-1)/2 pairs, each submitted m times. */
  lemma UnitsLength(n: nat, m: nat)
    ensures 2 * |Units(n, m)| == n * (n - 1) * m
  {
    RowsLength(n, n, m);
  }

  /** The enumeration's guarantees, gathered: bounds, multiplicities and total count. */
  lemma UnitsFacts(n: nat, m: nat)
    ensures forall u :: u in Units(n, m) ==> u.i < u.j < n
    ensures forall i, j :: 0 <= i < j < n ==> multiset(Units(n, m))[Pair(i, j)] == m
    ensures 2 * |Units(n, m)| == n * (n - 1) * m
  {
    forall u | u in Units(n, m)
      ensures u.i < u.j < n
    {
      UnitsCount(n, m, u);
    }
    forall i, j | 0 <= i < j < n
      ensures multiset(Units(n, m))[Pair(i, j)] == m
    {
      UnitsCount(n, m, Pair(i, j));
    }
    UnitsLength(n, m);
  }

  /** How many of `units` agent position `p` plays in, on either side. */
  function Involving(p: nat, units: seq<Pair>): nat
    decreases |units|
  {
    if units == [] then 0
    else
      var u := units[|units| - 1];
      Involving(p, units[..|units| - 1]) + (if u.i == p || u.j == p then 1 else 0)
  }

  /** The games position `p` plays over `units` when every unit plays `m` games. */
  function GamesIn(p: nat, units: seq<Pair>, m: nat): nat
    decreases |units|
  {
    if units == [] then 0
    else
      var u := units[|units| - 1];
      GamesIn(p, units[..|units| - 1], m) + (if u.i == p || u.j == p then m else 0)
  }

  lemma {:induction false} GamesInCount(p: nat, units: seq<Pair>, m: nat)
    ensures GamesIn(p, units, m) == m * Involving(p, units)
    decreases |units|
  {
    if units != [] {
      var u := units[|units| - 1];
      GamesInCount(p, units[..|units| - 1], m);
      MulCount(m, Involving(p, units[..|units| - 1]), u.i == p || u.j == p);
    }
  }

  lemma {:induction false} InvolvingAppend(p: nat, a: seq<Pair>, b: seq<Pair>)
    ensures Involving(p, a + b) == Involving(p, a) + Involving(p, b)
    decreases |b|
  {
    if b == [] {
      assert a + b == a;
    } else {
      var init := b[..|b| - 1];
      assert (a + b)[..|a + b| - 1] == a + init;
      assert (a + b)[|a + b| - 1] == b[|b| - 1];
      InvolvingAppend(p, a, init);
    }
  }

  lemma {:induction false} RepeatInvolving(p: nat, q: Pair, m: nat)
    ensures Involving(p, Repeat(q, m)) == if q.i == p || q.j == p then m else 0
  {
    if m > 0 {
      RepeatInvolving(p, q, m - 1);
      InvolvingAppend(p, Repeat(q, m - 1), [q]);
      assert [q][..0] == [];
    }
  }

  lemma MulStep(a: int, m: int)
    ensures a * m + m == (a + 1) * m
  {
  }

  /** One more unit of m games, or none. */
  lemma MulCount(m: int, before: int, hit: bool)
    ensures m * before + (if hit then m else 0) == m * (before + if hit then 1 else 0)
  {
  }

  lemma MulAssoc(m: int, k: int, n: int)
    requires k == (n - 1) * m
    ensures m * k == (n - 1) * m * m
  {
  }

  /** Row i holds m units of agent i against each of the positions i+1, ..., j-1. */
  lemma {:induction false} RowInvolvingOwn(i: nat, j: nat, m: nat)
    requires i < j
    ensures Involving(i, Row(i, j, m)) == (j - i - 1) * m
    decreases j
  {
    if j > i + 1 {
      var before, last := Row(i, j - 1, m), Repeat(Pair(i, j - 1), m);
      var d := j - i - 2;
      assert Involving(i, Row(i, j, m)) == Involving(i, before) + Involving(i, last) by {
        assert Row(i, j, m) == before + last;
        InvolvingAppend(i, before, last);
      }
      assert Involving(i, before) == d * m by {
        RowInvolvingOwn(i, j - 1, m);
      }
      assert Involving(i, last) == m by {
        RepeatInvolving(i, Pair(i, j - 1), m);
      }
      MulStep(d, m);
    }
  }

  /** Any other agent p meets agent i in row i only as its partner, m times. */
  lemma {:induction false} RowInvolvingOther(p: nat, i: nat, j: nat, m: nat)
    requires p != i
    ensures Involving(p, Row(i, j, m)) == if i < p < j then m else 0
    decreases j
  {
    if j > i + 1 {
      var before, last := Row(i, j - 1, m), Repeat(Pair(i, j - 1), m);
      assert Row(i, j, m) == before + last;
      RowInvolvingOther(p, i, j - 1, m);
      RepeatInvolving(p, Pair(i, j - 1), m);
      InvolvingAppend(p, before, last);
    }
  }

  /** Rows 0, ..., i-1 hold p's units against the earlier positions below i, plus, once row
      p is complete, its units against every later position. */
  lemma {:induction false} RowsInvolving(p: nat, i: nat, n: nat, m: nat)
    requires i <= n && p < n
    ensures Involving(p, Rows(i, n, m)) == if p < i then (n - 1) * m else i * m
  {
    if i > 0 {
      var k := i - 1;
      var before, row := Rows(k, n, m), Row(k, n, m);
      assert Rows(i, n, m) == before + row;
      RowsInvolving(p, k, n, m);
      if p == k {
        RowInvolvingOwn(k, n, m);
      } else {
        RowInvolvingOther(p, k, n, m);
      }
      InvolvingAppend(p, before, row);
      var r, x := Involving(p, before), Involving(p, row);
      if p < k {
        assert r == (n - 1) * m && x == 0;
      } else if p == k {
        assert r == k * m && x == (n - k - 1) * m;
        assert k * m + (n - k - 1) * m == (n - 1) * m;
      } else {
        assert r == k * m && x == m;
        MulStep(k, m);
      }
    }
  }

  /** Each of the n agents appears in (n-1)*m units: m against every other agent. */
  lemma UnitsInvolving(p: nat, n: nat, m: nat)
    requires p < n
    ensures Involving(p, Units(n, m)) == (n - 1) * m
  {
    RowsInvolving(p, n, n, m);
  }

  /** The nested loops of the scheduler, appending one unit per innermost iteration. */
  method EnumerateUnits(agentCount: nat, numMatches: nat) returns (units: seq<Pair>)
    ensures units == Units(agentCount, numMatches)
    ensures forall u :: u in units ==> u.i < u.j < agentCount
    ensures forall i, j :: 0 <= i < j < agentCount ==> multiset(units)[Pair(i, j)] == numMatches
    ensures 2 * |units| == agentCount * (agentCount - 1) * numMatches
  {
    units := [];
    var i := 0;
    while i < agentCount
      invariant i <= agentCount
      invariant units == Rows(i, agentCount, numMatches)
    {
      var j := i + 1;
      while j < agentCount
        invariant i + 1 <= j <= agentCount
        invariant units == Rows(i, agentCount, numMatches) + Row(i, j, numMatches)
      {
        var k := 0;
        while k < numMatches
          invariant k <= numMatches
          invariant units == Rows(i, agentCount, numMatches) + Row(i, j, numMatches) + Repeat(Pair(i, j), k)
        {
          units := units + [Pair(i, j)];
          k := k + 1;
        }
        j := j + 1;
      }
      i := i + 1;
    }
    UnitsFacts(agentCount, numMatches);
  }
}
