/** The tournament driver: submit every unit of work, merge the completed units into the
    global table in the order they complete, skip the failed ones, and rank the result. */
module Tournament {
  import opened Tallies
  import opened RankingTables
  import opened Schedule
  import opened Ordering

  /** What one unit of work produced: run_match raised (the engine failed or its output
      did not decode), or it played its games with these results, in order. */
  datatype UnitRun = Failed | Played(results: seq<GameResult>)

  /** The future of unit `u`: the table run_match returned, or None when it raised. */
  function Outcome(agents: seq<string>, u: Pair, run: UnitRun): (o: Option<Table>)
    requires u.i < u.j < |agents|
    ensures o.Some? ==> o.value.Keys == {agents[u.i], agents[u.j]}
    ensures o.None? <==> run.Failed?
  {
    match run
    case Failed => None
    case Played(results) => Some(MatchTable(agents[u.i], agents[u.j], results))
  }

  /** The outcomes of all units, in submission order. */
  function Outcomes(agents: seq<string>, units: seq<Pair>, runs: seq<UnitRun>): (os: seq<Option<Table>>)
    requires |runs| == |units|
    requires forall u :: u in units ==> u.i < u.j < |agents|
    ensures |os| == |units|
    ensures Fits((set a | a in agents), os)
  {
    var os := seq(|units|, k requires 0 <= k < |units| => Outcome(agents, units[k], runs[k]));
    assert forall k :: 0 <= k < |units| ==> units[k] in units;
    os
  }

  /** The global table once every unit has completed or failed. */
  function FinalTable(agents: seq<string>, numMatches: nat, runs: seq<UnitRun>): (t: Table)
    requires |runs| == |Units(|agents|, numMatches)|
    ensures t.Keys == set a | a in agents
  {
    UnitsFacts(|agents|, numMatches);
    MergeAll(ZeroTable(agents), Outcomes(agents, Units(|agents|, numMatches), runs))
  }

  function Indices(n: nat): (r: seq<nat>)
    ensures |r| == n
    ensures forall k :: 0 <= k < n ==> r[k] == k
  {
    if n == 0 then [] else Indices(n - 1) + [n - 1]
  }

  /** `order` lists every position 0, ..., n-1 exactly once. */
  ghost predicate IsPermutation(order: seq<nat>, n: nat) {
    multiset(order) == multiset(Indices(n))
  }

  /** The elements of `xs` in the order `order` names them. */
  function Pick<T>(xs: seq<T>, order: seq<nat>): (r: seq<T>)
    requires forall t :: t in order ==> t < |xs|
    ensures |r| == |order|
    ensures forall t :: 0 <= t < |order| ==> order[t] in order && r[t] == xs[order[t]]
  {
    seq(|order|, t requires 0 <= t < |order| => assert order[t] in order; xs[order[t]])
  }

  lemma PickAppend<T>(xs: seq<T>, a: seq<nat>, b: seq<nat>)
    requires forall t :: t in a + b ==> t < |xs|
    ensures forall t :: t in a ==> t < |xs|
    ensures forall t :: t in b ==> t < |xs|
    ensures Pick(xs, a + b) == Pick(xs, a) + Pick(xs, b)
  {
    assert forall t :: t in a ==> t in a + b;
    assert forall t :: t in b ==> t in a + b;
  }

  lemma SameBounds(n: nat, a: seq<nat>, b: seq<nat>)
    requires multiset(a) == multiset(b)
    requires forall t :: t in a ==> t < n
    ensures forall t :: t in b ==> t < n
  {
    forall t | t in b
      ensures t < n
    {
      assert t in multiset(b);
      assert t in multiset(a);
      assert t in a;
    }
  }

  /** Picking position `x` contributes its element once, wherever it stands. */
  lemma PickSplit<T>(xs: seq<T>, pre: seq<nat>, x: nat, post: seq<nat>)
    requires forall t :: t in pre + [x] + post ==> t < |xs|
    ensures x < |xs| && forall t :: t in pre + post ==> t < |xs|
    ensures multiset(Pick(xs, pre + [x] + post)) == multiset(Pick(xs, pre + post)) + multiset{xs[x]}
  {
    assert x in pre + [x] + post;
    assert forall t :: t in pre + post ==> t in pre + [x] + post;
    PickAppend(xs, pre + [x], post);
    PickAppend(xs, pre, [x]);
    PickAppend(xs, pre, post);
    var pp, pq := Pick(xs, pre), Pick(xs, post);
    assert Pick(xs, [x]) == [xs[x]];
    assert Pick(xs, pre + [x] + post) == pp + [xs[x]] + pq;
    assert Pick(xs, pre + post) == pp + pq;
  }

  /** Picking by two orders that hold the same positions gives the same multiset. */
  lemma {:induction false} PickMultiset<T>(xs: seq<T>, a: seq<nat>, b: seq<nat>)
    requires multiset(a) == multiset(b)
    requires forall t :: t in a ==> t < |xs|
    ensures forall t :: t in b ==> t < |xs|
    ensures multiset(Pick(xs, a)) == multiset(Pick(xs, b))
    decreases |a|
  {
    SameBounds(|xs|, a, b);
    if a == [] {
      assert |b| == |multiset(b)| == 0;
    } else {
      var x, a' := a[|a| - 1], a[..|a| - 1];
      assert a == a' + [x] + [];
      assert a' + [] == a';
      assert x in multiset(b);
      var k :| 0 <= k < |b| && b[k] == x;
      var pre, post := b[..k], b[k + 1..];
      assert b == pre + [x] + post;
      RemoveOne(a', x, pre, post);
      PickSplit(xs, a', x, []);
      PickSplit(xs, pre, x, post);
      PickMultiset(xs, a', pre + post);
    }
  }

  /** Taking a sequence in any permuted order keeps its multiset. */
  lemma PickPermutation<T>(xs: seq<T>, order: seq<nat>)
    requires IsPermutation(order, |xs|)
    ensures forall t :: t in order ==> t < |xs|
    ensures multiset(Pick(xs, order)) == multiset(xs)
  {
    var ids := Indices(|xs|);
    assert forall t :: t in order ==> t in multiset(ids);
    PickMultiset(xs, ids, order);
    assert Pick(xs, ids) == xs;
  }

  /** The submission loop: one future per unit, in submission order. A unit that raised
      yields None; the others yield the table run_match returned. */
  method Submit(agents: seq<string>, units: seq<Pair>, runs: seq<UnitRun>) returns (submitted: seq<Option<Table>>)
    requires |runs| == |units|
    requires forall u :: u in units ==> u.i < u.j < |agents|
    ensures submitted == Outcomes(agents, units, runs)
  {
    submitted := [];
    var k := 0;
    while k < |units|
      invariant k <= |units|
      invariant |submitted| == k
      invariant forall t :: 0 <= t < k ==> units[t] in units && submitted[t] == Outcome(agents, units[t], runs[t])
    {
      var u := units[k];
      assert u in units;
      if runs[k].Played? {
        var partial := RunMatch(agents[u.i], agents[u.j], runs[k].results);
        submitted := submitted + [Some(partial)];
      } else {
        submitted := submitted + [None];
      }
      k := k + 1;
    }
  }

  /** main: submit every unit, merge the tables of the completed ones in completion order
      `order`, then sort by descending score. The ranking does not depend on `order`. */
  method RunTournament(agents: seq<string>, numMatches: nat, runs: seq<UnitRun>, order: seq<nat>)
      returns (ranking: seq<Entry>)
    requires Distinct(agents)
    requires |runs| == |Units(|agents|, numMatches)|
    requires forall k :: 0 <= k < |runs| && runs[k].Played? ==> |runs[k].results| == numMatches
    requires IsPermutation(order, |runs|)
    ensures ranking == Ranking(agents, FinalTable(agents, numMatches, runs))
  {
    var units := EnumerateUnits(|agents|, numMatches);
    var submitted := Submit(agents, units, runs);
    PickPermutation(submitted, order);
    var arrived := Pick(submitted, order);
    MergeAllPermutation(ZeroTable(agents), submitted, arrived);
    var table := Aggregate(agents, arrived);
    ranking := Ranking(agents, table);
  }

  /** No unit failed, and each played its `m` games. */
  predicate AllPlayed(runs: seq<UnitRun>, m: nat) {
    forall k :: 0 <= k < |runs| ==> runs[k].Played? && |runs[k].results| == m
  }

  /** The games one completed unit credits to agents[p]: m if p is one of its two
      positions, none otherwise. */
  lemma UnitGames(agents: seq<string>, u: Pair, run: UnitRun, m: nat, p: nat)
    requires Distinct(agents) && p < |agents| && u.i < u.j < |agents|
    requires run.Played? && |run.results| == m
    ensures var o := Outcome(agents, u, run);
      (if o.Some? && agents[p] in o.value then Games(o.value[agents[p]]) else 0)
      == if u.i == p || u.j == p then m else 0
  {
    var a, b := agents[u.i], agents[u.j];
    MatchTotals(a, b, run.results);
    if u.i != p && u.j != p {
      assert agents[p] != a && agents[p] != b;
    }
  }

  lemma OutcomesPrefix(agents: seq<string>, units: seq<Pair>, runs: seq<UnitRun>, n: nat)
    requires |runs| == |units| && n <= |units|
    requires forall u :: u in units ==> u.i < u.j < |agents|
    ensures forall u :: u in units[..n] ==> u.i < u.j < |agents|
    ensures Outcomes(agents, units[..n], runs[..n]) == Outcomes(agents, units, runs)[..n]
  {
    assert forall u :: u in units[..n] ==> u in units;
  }

  /** With no failures, the units credit an agent m games for every unit it plays in. */
  lemma {:induction false} OutcomesGames(agents: seq<string>, units: seq<Pair>, runs: seq<UnitRun>, m: nat, p: nat)
    requires Distinct(agents) && p < |agents|
    requires |runs| == |units|
    requires forall u :: u in units ==> u.i < u.j < |agents|
    requires AllPlayed(runs, m)
    ensures Games(AgentTotal(agents[p], Outcomes(agents, units, runs))) == GamesIn(p, units, m)
    decreases |units|
  {
    var os := Outcomes(agents, units, runs);
    if units == [] {
      assert os == [];
    } else {
      var n := |units| - 1;
      var a, u := agents[p], units[n];
      var before := GamesIn(p, units[..n], m);
      var o := os[n];
      var gained := if o.Some? && a in o.value then Games(o.value[a]) else 0;
      assert Games(AgentTotal(a, os[..n])) == before by {
        OutcomesPrefix(agents, units, runs, n);
        OutcomesGames(agents, units[..n], runs[..n], m, p);
      }
      assert gained == if u.i == p || u.j == p then m else 0 by {
        assert u in units;
        UnitGames(agents, u, runs[n], m, p);
      }
    }
  }

  /** The final entry of each agent is all that the completed units credit it. */
  lemma FinalEntry(agents: seq<string>, numMatches: nat, runs: seq<UnitRun>, a: string)
    requires |runs| == |Units(|agents|, numMatches)|
    requires a in agents
    ensures a in FinalTable(agents, numMatches, runs)
    ensures forall u :: u in Units(|agents|, numMatches) ==> u.i < u.j < |agents|
    ensures FinalTable(agents, numMatches, runs)[a]
      == AgentTotal(a, Outcomes(agents, Units(|agents|, numMatches), runs))
  {
    UnitsFacts(|agents|, numMatches);
    var os := Outcomes(agents, Units(|agents|, numMatches), runs);
    var z := ZeroTable(agents);
    assert z[a] == Zero;
    MergeAllTotals(z, os, a);
    assert Add(Zero, AgentTotal(a, os)) == AgentTotal(a, os);
  }

  /** Without failures, an agent's final games are m for every unit it plays in. */
  lemma FinalGames(agents: seq<string>, numMatches: nat, runs: seq<UnitRun>, p: nat)
    requires Distinct(agents) && p < |agents|
    requires |runs| == |Units(|agents|, numMatches)|
    requires AllPlayed(runs, numMatches)
    ensures agents[p] in FinalTable(agents, numMatches, runs)
    ensures Games(FinalTable(agents, numMatches, runs)[agents[p]]) == numMatches * Involving(p, Units(|agents|, numMatches))
  {
    var n, m, a := |agents|, numMatches, agents[p];
    assert a in agents;
    FinalEntry(agents, m, runs, a);
    OutcomesGames(agents, Units(n, m), runs, m, p);
    GamesInCount(p, Units(n, m), m);
  }

  /** With no failed unit, every agent ends with (n-1)*m*m games recorded: m units against
      each of the other n-1 agents, and m games in each unit. */
  lemma GamesPerAgent(agents: seq<string>, numMatches: nat, runs: seq<UnitRun>, p: nat)
    requires Distinct(agents) && p < |agents|
    requires |runs| == |Units(|agents|, numMatches)|
    requires AllPlayed(runs, numMatches)
    ensures agents[p] in FinalTable(agents, numMatches, runs)
    ensures Games(FinalTable(agents, numMatches, runs)[agents[p]]) == (|agents| - 1) * numMatches * numMatches
  {
    var n, m := |agents|, numMatches;
    FinalGames(agents, m, runs, p);
    var g, k := Games(FinalTable(agents, m, runs)[agents[p]]), Involving(p, Units(n, m));
    UnitsInvolving(p, n, m);
    MulAssoc(m, k, n);
  }
}
