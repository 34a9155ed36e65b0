/** Value-level model of the tournament's bookkeeping: one agent's tally, one game's
    parsed result, and the ranking table (agent name -> tally). The functions here are
    the specifications that the imperative code in RankingTables is proved against. */
module Tallies {

  datatype Option<T> = None | Some(value: T)

  /** One agent's record: {"Wins", "Losses", "Draws", "score"}. */
  datatype Tally = Tally(wins: nat, losses: nat, draws: nat, score: int)

  /** The fields of a parsed game result that the bookkeeping reads:
      `winner_pid` and `players["0"].score`, `players["1"].score`. */
  datatype GameResult = GameResult(winnerPid: int, score0: int, score1: int)

  /** The two seats of a game: agent1 plays as player "0", agent2 as player "1". */
  datatype Side = Player0 | Player1

  type Table = map<string, Tally>

  /** Agent names are file names of one directory, so no two are equal. */
  predicate Distinct(agents: seq<string>) {
    forall p, q :: 0 <= p < q < |agents| ==> agents[p] != agents[q]
  }

  const Zero := Tally(0, 0, 0, 0)

  /** Number of games recorded in a tally. */
  function Games(t: Tally): nat {
    t.wins + t.losses + t.draws
  }

  function Add(x: Tally, y: Tally): Tally {
    Tally(x.wins + y.wins, x.losses + y.losses, x.draws + y.draws, x.score + y.score)
  }

  /** The table built from the discovered agents, every entry zeroed. */
  function ZeroTable(agents: seq<string>): (t: Table)
    ensures t.Keys == set a | a in agents
  {
    map a | a in agents :: Zero
  }

  /** What one game credits to the agent sitting on `side`. */
  function Credit(g: GameResult, side: Side): (c: Tally)
    ensures Games(c) == 1
    ensures c.score == if side == Player0 then g.score0 else g.score1
    ensures c.wins == 1 <==> g.winnerPid == (if side == Player0 then 0 else 1)
    ensures c.losses == 1 <==> g.winnerPid == (if side == Player0 then 1 else 0)
    ensures c.draws == 1 <==> g.winnerPid != 0 && g.winnerPid != 1
  {
    var score := if side == Player0 then g.score0 else g.score1;
    var mine, theirs := if side == Player0 then 0 else 1, if side == Player0 then 1 else 0;
    if g.winnerPid == mine then Tally(1, 0, 0, score)
    else if g.winnerPid == theirs then Tally(0, 1, 0, score)
    else Tally(0, 0, 1, score)
  }

  /** The two seats' credits mirror each other: a win on one side is a loss on the other. */
  lemma CreditMirror(g: GameResult)
    ensures Credit(g, Player0).wins == Credit(g, Player1).losses
    ensures Credit(g, Player0).losses == Credit(g, Player1).wins
    ensures Credit(g, Player0).draws == Credit(g, Player1).draws
  {
  }

  /** The effect of update_ranking_table on the table: agent1 is credited as player "0",
      then agent2 as player "1" (in that order, so that agent1 == agent2 gets both). */
  function ApplyResult(t: Table, agent1: string, agent2: string, g: GameResult): (r: Table)
    requires agent1 in t && agent2 in t
    ensures r.Keys == t.Keys
    ensures forall a :: a in t && a != agent1 && a != agent2 ==> r[a] == t[a]
  {
    var t1 := t[agent1 := Add(t[agent1], Credit(g, Player0))];
    t1[agent2 := Add(t1[agent2], Credit(g, Player1))]
  }

  /** The per-game update rule, field by field, for two distinct agents. */
  lemma ApplyResultEffects(t: Table, agent1: string, agent2: string, g: GameResult)
    requires agent1 in t && agent2 in t && agent1 != agent2
    ensures var r := ApplyResult(t, agent1, agent2, g);
      && (g.winnerPid == 0 ==>
            && r[agent1].wins == t[agent1].wins + 1 && r[agent2].losses == t[agent2].losses + 1
            && r[agent1].losses == t[agent1].losses && r[agent2].wins == t[agent2].wins
            && r[agent1].draws == t[agent1].draws && r[agent2].draws == t[agent2].draws)
      && (g.winnerPid == 1 ==>
            && r[agent2].wins == t[agent2].wins + 1 && r[agent1].losses == t[agent1].losses + 1
            && r[agent1].wins == t[agent1].wins && r[agent2].losses == t[agent2].losses
            && r[agent1].draws == t[agent1].draws && r[agent2].draws == t[agent2].draws)
      && (g.winnerPid != 0 && g.winnerPid != 1 ==>
            && r[agent1].draws == t[agent1].draws + 1 && r[agent2].draws == t[agent2].draws + 1
            && r[agent1].wins == t[agent1].wins && r[agent2].wins == t[agent2].wins
            && r[agent1].losses == t[agent1].losses && r[agent2].losses == t[agent2].losses)
      && r[agent1].score == t[agent1].score + g.score0
      && r[agent2].score == t[agent2].score + g.score1
      && Games(r[agent1]) + Games(r[agent2]) == Games(t[agent1]) + Games(t[agent2]) + 2
  {
  }

  /** When both seats are the same agent, that one record gains both credits. */
  lemma ApplyResultSelfPlay(t: Table, agent: string, g: GameResult)
    requires agent in t
    ensures ApplyResult(t, agent, agent, g)[agent]
         == Add(t[agent], Add(Credit(g, Player0), Credit(g, Player1)))
  {
  }

  // ---------------------------------------------------------------------------
  // run_match: a zeroed two-agent table with the games folded in, in order.

  /** The table after applying the results `rs` one after the other to `t`. */
  function Replay(t: Table, agent1: string, agent2: string, rs: seq<GameResult>): (r: Table)
    requires agent1 in t && agent2 in t
    ensures r.Keys == t.Keys
    decreases |rs|
  {
    if rs == [] then t
    else ApplyResult(Replay(t, agent1, agent2, rs[..|rs| - 1]), agent1, agent2, rs[|rs| - 1])
  }

  /** The table that run_match returns for the game results `rs`. */
  function MatchTable(agent1: string, agent2: string, rs: seq<GameResult>): (r: Table)
    ensures r.Keys == {agent1, agent2}
  {
    var z := ZeroTable([agent1, agent2]);
    Replay(z, agent1, agent2, rs)
  }

  /** Sum of the credits of the games `rs` to one seat. */
  function CreditSum(rs: seq<GameResult>, side: Side): Tally
    decreases |rs|
  {
    if rs == [] then Zero else Add(CreditSum(rs[..|rs| - 1], side), Credit(rs[|rs| - 1], side))
  }

  /** Each seat has one game recorded per result. */
  lemma {:induction false} CreditSumGames(rs: seq<GameResult>, side: Side)
    ensures Games(CreditSum(rs, side)) == |rs|
    decreases |rs|
  {
    if rs != [] {
      CreditSumGames(rs[..|rs| - 1], side);
    }
  }

  /** Over any sequence of games, the two seats' sums mirror each other. */
  lemma {:induction false} CreditSumMirror(rs: seq<GameResult>)
    ensures CreditSum(rs, Player0).wins == CreditSum(rs, Player1).losses
    ensures CreditSum(rs, Player0).losses == CreditSum(rs, Player1).wins
    ensures CreditSum(rs, Player0).draws == CreditSum(rs, Player1).draws
    decreases |rs|
  {
    if rs != [] {
      CreditSumMirror(rs[..|rs| - 1]);
      CreditMirror(rs[|rs| - 1]);
    }
  }

  /** Replaying games for two distinct agents adds exactly each seat's credit sum. */
  lemma {:induction false} ReplayCredits(t: Table, agent1: string, agent2: string, rs: seq<GameResult>)
    requires agent1 in t && agent2 in t && agent1 != agent2
    ensures Replay(t, agent1, agent2, rs)[agent1] == Add(t[agent1], CreditSum(rs, Player0))
    ensures Replay(t, agent1, agent2, rs)[agent2] == Add(t[agent2], CreditSum(rs, Player1))
    decreases |rs|
  {
    if rs != [] {
      ReplayCredits(t, agent1, agent2, rs[..|rs| - 1]);
    }
  }

  /** run_match credits each agent exactly its seat's sum over the games played. */
  lemma MatchCredits(agent1: string, agent2: string, rs: seq<GameResult>)
    requires agent1 != agent2
    ensures MatchTable(agent1, agent2, rs)[agent1] == CreditSum(rs, Player0)
    ensures MatchTable(agent1, agent2, rs)[agent2] == CreditSum(rs, Player1)
  {
    var z := ZeroTable([agent1, agent2]);
    assert agent1 in [agent1, agent2] && agent2 in [agent1, agent2];
    assert z[agent1] == Zero && z[agent2] == Zero;
    ReplayCredits(z, agent1, agent2, rs);
    assert Add(Zero, CreditSum(rs, Player0)) == CreditSum(rs, Player0);
    assert Add(Zero, CreditSum(rs, Player1)) == CreditSum(rs, Player1);
  }

  /** After run_match over n results, each agent has n games, the two agents' wins and
      losses mirror each other and their draws agree. */
  lemma MatchTotals(agent1: string, agent2: string, rs: seq<GameResult>)
    requires agent1 != agent2
    ensures var m := MatchTable(agent1, agent2, rs);
      && Games(m[agent1]) == |rs| && Games(m[agent2]) == |rs|
      && m[agent1].wins == m[agent2].losses && m[agent2].wins == m[agent1].losses
      && m[agent1].draws == m[agent2].draws
  {
    MatchCredits(agent1, agent2, rs);
    CreditSumGames(rs, Player0);
    CreditSumGames(rs, Player1);
    CreditSumMirror(rs);
  }

  // ---------------------------------------------------------------------------
  // The merge of a completed unit's table into the global table.

  /** The effect of the merge loop for one completed unit's table `partial`. */
  function Merge(global: Table, partial: Table): (r: Table)
    requires partial.Keys <= global.Keys
    ensures r.Keys == global.Keys
  {
    map a | a in global :: if a in partial then Add(global[a], partial[a]) else global[a]
  }

  /** Merging adds every field of every agent of the partial table, and leaves the others. */
  lemma MergeAdds(global: Table, partial: Table)
    requires partial.Keys <= global.Keys
    ensures forall a :: a in partial ==>
      && Merge(global, partial)[a].wins == global[a].wins + partial[a].wins
      && Merge(global, partial)[a].losses == global[a].losses + partial[a].losses
      && Merge(global, partial)[a].draws == global[a].draws + partial[a].draws
      && Merge(global, partial)[a].score == global[a].score + partial[a].score
    ensures forall a :: a in global && a !in partial ==> Merge(global, partial)[a] == global[a]
  {
  }

  /** Merging two partial tables in either order gives the same global table. */
  lemma MergeCommutes(global: Table, p: Table, q: Table)
    requires p.Keys <= global.Keys && q.Keys <= global.Keys
    ensures Merge(Merge(global, p), q) == Merge(Merge(global, q), p)
  {
  }

  /** One unit's outcome: a failed unit (None) contributes nothing. */
  function Step(t: Table, outcome: Option<Table>): (r: Table)
    requires outcome.Some? ==> outcome.value.Keys <= t.Keys
    ensures r.Keys == t.Keys
    ensures outcome.None? ==> r == t
  {
    match outcome
    case None => t
    case Some(partial) => Merge(t, partial)
  }

  /** Every completed unit's table is over agents of the global table. */
  ghost predicate Fits(keys: set<string>, outcomes: seq<Option<Table>>) {
    forall o :: o in outcomes && o.Some? ==> o.value.Keys <= keys
  }

  /** The global table after processing `outcomes` in the order given. */
  function MergeAll(global: Table, outcomes: seq<Option<Table>>): (r: Table)
    requires Fits(global.Keys, outcomes)
    ensures r.Keys == global.Keys
    decreases |outcomes|
  {
    if outcomes == [] then global
    else Step(MergeAll(global, outcomes[..|outcomes| - 1]), outcomes[|outcomes| - 1])
  }

  lemma StepCommutes(t: Table, x: Option<Table>, y: Option<Table>)
    requires Fits(t.Keys, [x, y])
    ensures Step(Step(t, x), y) == Step(Step(t, y), x)
  {
    assert x in [x, y] && y in [x, y];
    if x.Some? && y.Some? {
      MergeCommutes(t, x.value, y.value);
    }
  }

  /** Processing `x` somewhere in the middle is the same as processing it last. */
  lemma {:induction false} MoveToBack(global: Table, pre: seq<Option<Table>>, x: Option<Table>, post: seq<Option<Table>>)
    requires Fits(global.Keys, pre + [x] + post)
    ensures Fits(global.Keys, pre + post)
    ensures MergeAll(global, pre + [x] + post) == Step(MergeAll(global, pre + post), x)
    decreases |post|
  {
    assert x in pre + [x] + post;
    if post == [] {
      assert pre + [x] + post == pre + [x];
      assert pre + post == pre;
      assert (pre + [x])[..|pre|] == pre;
    } else {
      var y, post' := post[|post| - 1], post[..|post| - 1];
      assert post == post' + [y];
      assert pre + [x] + post == (pre + [x] + post') + [y];
      assert pre + post == (pre + post') + [y];
      assert y in pre + [x] + post;
      assert forall o :: o in pre + [x] + post' ==> o in pre + [x] + post;
      MoveToBack(global, pre, x, post');
      var m := MergeAll(global, pre + post');
      assert Fits(m.Keys, [x, y]);
      StepCommutes(m, x, y);
    }
  }

  lemma RemoveOne<T>(xs: seq<T>, x: T, pre: seq<T>, post: seq<T>)
    requires multiset(xs + [x]) == multiset(pre + [x] + post)
    ensures multiset(xs) == multiset(pre + post)
  {
    calc {
      multiset(xs);
      multiset(xs + [x]) - multiset{x};
      multiset(pre + [x] + post) - multiset{x};
      multiset(pre) + multiset{x} + multiset(post) - multiset{x};
      multiset(pre + post);
    }
  }

  /** The global table does not depend on the order in which units complete. */
  lemma {:induction false} MergeAllPermutation(global: Table, xs: seq<Option<Table>>, ys: seq<Option<Table>>)
    requires multiset(xs) == multiset(ys)
    requires Fits(global.Keys, xs)
    ensures Fits(global.Keys, ys)
    ensures MergeAll(global, xs) == MergeAll(global, ys)
    decreases |xs|
  {
    assert forall o :: o in ys ==> o in multiset(ys);
    if xs == [] {
      assert |ys| == |multiset(ys)| == 0;
    } else {
      var x, xs' := xs[|xs| - 1], xs[..|xs| - 1];
      assert xs == xs' + [x];
      assert x in multiset(ys);
      var k :| 0 <= k < |ys| && ys[k] == x;
      var pre, post := ys[..k], ys[k + 1..];
      assert ys == pre + [x] + post;
      RemoveOne(xs', x, pre, post);
      assert forall o :: o in xs' ==> o in xs;
      MergeAllPermutation(global, xs', pre + post);
      MoveToBack(global, pre, x, post);
    }
  }

  /** The completed outcomes, in their original order. */
  function Completed(outcomes: seq<Option<Table>>): (r: seq<Option<Table>>)
    ensures forall o :: o in r ==> o in outcomes && o.Some?
    decreases |outcomes|
  {
    if outcomes == [] then []
    else
      var last := outcomes[|outcomes| - 1];
      Completed(outcomes[..|outcomes| - 1]) + (if last.Some? then [last] else [])
  }

  /** Failed units contribute nothing: dropping them leaves the global table unchanged. */
  lemma {:induction false} SkipFailed(global: Table, outcomes: seq<Option<Table>>)
    requires Fits(global.Keys, outcomes)
    ensures Fits(global.Keys, Completed(outcomes))
    ensures MergeAll(global, outcomes) == MergeAll(global, Completed(outcomes))
    decreases |outcomes|
  {
    if outcomes != [] {
      var init, last := outcomes[..|outcomes| - 1], outcomes[|outcomes| - 1];
      assert forall o :: o in init ==> o in outcomes;
      SkipFailed(global, init);
      var c := Completed(outcomes);
      if last.Some? {
        assert c[..|c| - 1] == Completed(init);
      } else {
        assert c == Completed(init);
      }
    }
  }

  /** Everything the completed units credit to agent `a`. */
  function AgentTotal(a: string, outcomes: seq<Option<Table>>): Tally
    decreases |outcomes|
  {
    if outcomes == [] then Zero
    else
      var last := outcomes[|outcomes| - 1];
      var rest := AgentTotal(a, outcomes[..|outcomes| - 1]);
      if last.Some? && a in last.value then Add(rest, last.value[a]) else rest
  }

  /** Each agent's final entry is its starting entry plus all that completed units credit it. */
  lemma {:induction false} MergeAllTotals(global: Table, outcomes: seq<Option<Table>>, a: string)
    requires Fits(global.Keys, outcomes) && a in global
    ensures MergeAll(global, outcomes)[a] == Add(global[a], AgentTotal(a, outcomes))
    decreases |outcomes|
  {
    if outcomes != [] {
      var init := outcomes[..|outcomes| - 1];
      assert forall o :: o in init ==> o in outcomes;
      assert outcomes[|outcomes| - 1] in outcomes;
      MergeAllTotals(global, init, a);
    }
  }
}
