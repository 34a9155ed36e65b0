/** The ranking table as the tournament keeps it: a dictionary updated in place, one game
    at a time (update_ranking_table) or one completed unit at a time (the merge loop). */
module RankingTables {
  import opened Tallies

  class RankingTable {
    var rows: Table

    /** A table over `agents` with every entry zeroed. */
    constructor Zeroed(agents: seq<string>)
      ensures rows == ZeroTable(agents)
    {
      rows := ZeroTable(agents);
    }

    /** update_ranking_table: bump Wins/Losses or both Draws, then add both scores. */
    method RecordGame(agent1: string, agent2: string, g: GameResult)
      requires agent1 in rows && agent2 in rows
      modifies this
      ensures rows == ApplyResult(old(rows), agent1, agent2, g)
    {
      ghost var before := rows;
      if g.winnerPid == 0 {
        rows := rows[agent1 := rows[agent1].(wins := rows[agent1].wins + 1)];
        rows := rows[agent2 := rows[agent2].(losses := rows[agent2].losses + 1)];
      } else if g.winnerPid == 1 {
        rows := rows[agent2 := rows[agent2].(wins := rows[agent2].wins + 1)];
        rows := rows[agent1 := rows[agent1].(losses := rows[agent1].losses + 1)];
      } else {
        rows := rows[agent1 := rows[agent1].(draws := rows[agent1].draws + 1)];
        rows := rows[agent2 := rows[agent2].(draws := rows[agent2].draws + 1)];
      }
      ghost var mid := rows;
      rows := rows[agent1 := rows[agent1].(score := rows[agent1].score + g.score0)];
      rows := rows[agent2 := rows[agent2].(score := rows[agent2].score + g.score1)];
      RecordGameSound(before, mid, rows, agent1, agent2, g);
    }

    /** The body of the merge loop: add every field of every agent of `partial`. */
    method Absorb(partial: Table)
      requires partial.Keys <= rows.Keys
      modifies this
      ensures rows == Merge(old(rows), partial)
    {
      var pending := partial.Keys;
      while pending != {}
        invariant pending <= partial.Keys
        invariant rows.Keys == old(rows).Keys
        invariant forall a :: a in rows ==>
          rows[a] == if a in partial && a !in pending then Add(old(rows)[a], partial[a]) else old(rows)[a]
        decreases pending
      {
        var a :| a in pending;
        var scores := partial[a];
        rows := rows[a := rows[a].(wins := rows[a].wins + scores.wins)];
        rows := rows[a := rows[a].(losses := rows[a].losses + scores.losses)];
        rows := rows[a := rows[a].(draws := rows[a].draws + scores.draws)];
        rows := rows[a := rows[a].(score := rows[a].score + scores.score)];
        pending := pending - {a};
      }
    }
  }

  /** The W/L/D step followed by the score step of update_ranking_table is ApplyResult. */
  lemma RecordGameSound(before: Table, mid: Table, after: Table, agent1: string, agent2: string, g: GameResult)
    requires agent1 in before && agent2 in before
    requires mid ==
      if g.winnerPid == 0 then
        var t := before[agent1 := before[agent1].(wins := before[agent1].wins + 1)];
        t[agent2 := t[agent2].(losses := t[agent2].losses + 1)]
      else if g.winnerPid == 1 then
        var t := before[agent2 := before[agent2].(wins := before[agent2].wins + 1)];
        t[agent1 := t[agent1].(losses := t[agent1].losses + 1)]
      else
        var t := before[agent1 := before[agent1].(draws := before[agent1].draws + 1)];
        t[agent2 := t[agent2].(draws := t[agent2].draws + 1)]
    requires after ==
      var t := mid[agent1 := mid[agent1].(score := mid[agent1].score + g.score0)];
      t[agent2 := t[agent2].(score := t[agent2].score + g.score1)]
    ensures after == ApplyResult(before, agent1, agent2, g)
  {
    var c0, c1 := Credit(g, Player0), Credit(g, Player1);
    if agent1 == agent2 {
      assert after == before[agent1 := Add(Add(before[agent1], c0), c1)];
    } else {
      assert after == before[agent1 := Add(before[agent1], c0)][agent2 := Add(before[agent2], c1)];
    }
  }

  /** run_match: a zeroed two-agent table with the games' results recorded in order. */
  method RunMatch(agent1: string, agent2: string, results: seq<GameResult>) returns (rows: Table)
    ensures rows == MatchTable(agent1, agent2, results)
    ensures rows.Keys == {agent1, agent2}
  {
    var table := new RankingTable.Zeroed([agent1, agent2]);
    assert agent1 in [agent1, agent2] && agent2 in [agent1, agent2];
    var i := 0;
    while i < |results|
      invariant 0 <= i <= |results|
      invariant table.rows == Replay(ZeroTable([agent1, agent2]), agent1, agent2, results[..i])
    {
      assert results[..i + 1][..i] == results[..i];
      table.RecordGame(agent1, agent2, results[i]);
      i := i + 1;
    }
    assert results[..i] == results;
    rows := table.rows;
  }

  /** The merge phase of the tournament: starting from the zeroed table over `agents`, fold
      in the units' outcomes in the order they arrive, skipping the failed ones. */
  method Aggregate(agents: seq<string>, outcomes: seq<Option<Table>>) returns (rows: Table)
    requires Fits((set a | a in agents), outcomes)
    ensures rows.Keys == set a | a in agents
    ensures rows == MergeAll(ZeroTable(agents), outcomes)
    ensures forall a :: a in agents ==> rows[a] == AgentTotal(a, outcomes)
  {
    var table := new RankingTable.Zeroed(agents);
    var i := 0;
    while i < |outcomes|
      invariant 0 <= i <= |outcomes|
      invariant Fits(table.rows.Keys, outcomes[..i])
      invariant table.rows == MergeAll(ZeroTable(agents), outcomes[..i])
    {
      assert outcomes[..i + 1][..i] == outcomes[..i];
      assert outcomes[i] in outcomes;
      if outcomes[i].Some? {
        table.Absorb(outcomes[i].value);
      }
      i := i + 1;
    }
    assert outcomes[..i] == outcomes;
    rows := table.rows;
    forall a | a in agents
      ensures rows[a] == AgentTotal(a, outcomes)
    {
      MergeAllTotals(ZeroTable(agents), outcomes, a);
      assert Add(Zero, AgentTotal(a, outcomes)) == AgentTotal(a, outcomes);
    }
  }
}
