# Round-robin tournament bookkeeping, verified in Dafny

This project models the bookkeeping core of a round-robin tournament runner (`main.py`).
The runner finds the agents and schedules units of work. In each unit, two agents play a
fixed number of games against an external game engine. The runner keeps a per-agent tally of
Wins, Losses, Draws and score, merges the unit tallies into a global table as the units
complete, and writes the table sorted by descending score.

The model has six modules:

- `Tallies` (tallies.dfy) holds the value-level specification.
  - A `Tally` is one agent's record. A `GameResult` holds the parsed fields that the
    bookkeeping reads: `winner_pid` and the two players' scores. A `Table` maps agent names
    to tallies.
  - `ApplyResult` is the effect of `update_ranking_table` on the table.
  - `Replay` and `MatchTable` are the fold that `run_match` performs.
  - `Merge`, `Step` and `MergeAll` are the merge loop of `main`. A unit that raised is an
    `Option` holding `None`.
- `RankingTables` (ranking_tables.dfy) holds the imperative code, proved against `Tallies`.
  - The class `RankingTable` owns the dictionary that the source updates in place.
  - `RecordGame` performs `update_ranking_table` field by field. `Absorb` is the body of the
    merge loop.
  - `RunMatch` is `run_match`: a zeroed two-agent table, then one `RecordGame` per game.
  - `Aggregate` is the merge phase: a zeroed global table, then one `Absorb` per completed
    unit, skipping the failed ones.
- `Schedule` (schedule.dfy) holds the three nested submission loops (`EnumerateUnits`) and
  the functions `Units`, `Rows`, `Row` and `Repeat` that specify them. It counts how often
  each pair, and each agent, is scheduled.
- `Ordering` (ordering.dfy) holds `sorted(..., key=score, reverse=True)`.
  - It is modelled as an insertion sort that puts an entry before the first entry whose
    score does not exceed its own.
  - Python's sort is stable even with `reverse=True`. Both sorts therefore give the same
    result.
  - `Ranking` is the whole `sorted(final_ranking_table.items(), ...)` expression of
    main.py:136-140.
- `LogFilter` (log_filter.dfy) holds the text half of `parse_result`.
  - `SplitLines` follows `str.splitlines`, with all of Python's line boundaries.
  - `KeptLines` drops the lines that start with `INFO`, `WARNING` or `ERROR`. `IsLogLine`
    is that `startswith` test of main.py:31.
  - `JoinLines` is `"\n".join`.
- `Tournament` (tournament.dfy) puts everything together.
  - `RunTournament` submits every unit, collects the futures in an arbitrary completion
    order, merges them and sorts the result.
  - It is proved to return the ranking of a table that does not depend on the completion
    order. This holds for the model's integer scores; with float scores it need not (see
    "## Left out").
  - With no failed unit, every agent ends with `(n-1)·m²` games, where `n` is the number of
    agents and `m` is `num_matches`.

The model follows what the code does, also where its own documentation says otherwise:

- The `--num-matches` option is documented at main.py:81 as the "Number of matches to run
  per pair of agents". But main.py:105 submits `num_matches` units for each pair, and
  main.py:113 makes each of those units play `num_matches` games (main.py:60). So a pair
  plays `num_matches²` games. `Tournament.GamesPerAgent` states the consequence.
- A unit whose engine output does not decode, or lacks a field, raises inside `run_match`.
  `main` catches the exception and skips the unit (main.py:120-124). So such an error does
  not reach the caller of `main`. In the model, that unit is `UnitRun.Failed`.

## Model

| member | source | states |
|---|---|---|
| Tallies.ZeroTable | main.py:96-98 | the starting table has exactly the discovered agents as keys |
| Tallies.Credit | main.py:39-50 | one game credits each seat exactly one of a win, a loss or a draw, plus that seat's score. A seat wins exactly when winner_pid names it, loses exactly when winner_pid names the other seat, and draws exactly when winner_pid is neither 0 nor 1 |
| Tallies.CreditMirror | main.py:39-47 | player 0's win is player 1's loss and the reverse; a draw is credited to both |
| Tallies.ApplyResult | main.py:36-51 | the update keeps the key set and leaves every agent other than the two players unchanged |
| Tallies.ApplyResultEffects | main.py:39-50 | distinct agents, winner_pid 0: agent1 Wins+1, agent2 Losses+1, no Draws change. winner_pid 1: agent2 Wins+1, agent1 Losses+1. Any other winner_pid: both Draws+1, Wins and Losses unchanged. Both scores are always added, and the two agents' combined games rise by exactly 2 |
| Tallies.ApplyResultSelfPlay | main.py:36-51 | when agent1 == agent2, that one entry receives both seats' credits |
| Tallies.Replay | main.py:60-63 | folding any number of results keeps the key set |
| Tallies.MatchTable | main.py:56-64 | the table run_match returns has exactly the two agents as keys |
| Tallies.CreditSumGames | main.py:60-63 | n results give each seat exactly n games |
| Tallies.CreditSumMirror | main.py:60-63 | over any sequence of results, the two seats' wins and losses mirror each other and their draws agree |
| Tallies.ReplayCredits | main.py:60-63 | for distinct agents, replaying results adds exactly each seat's credit sum to that agent |
| Tallies.MatchCredits | main.py:54-64 | run_match credits agent1 with player 0's sum and agent2 with player 1's sum |
| Tallies.MatchTotals | main.py:54-64 | after run_match over n results, each agent has Wins+Losses+Draws = n, agent1's Wins = agent2's Losses, agent2's Wins = agent1's Losses, and the Draws are equal |
| Tallies.Merge | main.py:126-130 | merging a unit's table keeps the global key set |
| Tallies.MergeAdds | main.py:126-130 | merging adds Wins, Losses, Draws and score element-wise for every agent of the unit's table and leaves the other agents unchanged |
| Tallies.MergeCommutes | main.py:126-130 | merging two unit tables in either order gives the same global table |
| Tallies.Step | main.py:120-130 | a failed unit leaves the global table exactly as it was |
| Tallies.MergeAll | main.py:117-130 | processing any sequence of outcomes keeps the global key set |
| Tallies.StepCommutes | main.py:117-130 | two consecutive outcomes, failed or not, can be processed in either order |
| Tallies.MoveToBack | main.py:117-130 | processing an outcome in the middle of the sequence is the same as processing it last |
| Tallies.MergeAllPermutation | main.py:117-130 | every completion order of the same outcomes yields the same global table |
| Tallies.Completed | main.py:120-124 | the completed outcomes are outcomes of the input, and none of them failed |
| Tallies.SkipFailed | main.py:120-124 | dropping every failed unit leaves the final global table unchanged |
| Tallies.MergeAllTotals | main.py:126-130 | each agent's final entry is its starting entry plus everything that the completed units credit to it |
| RankingTables.RankingTable.Zeroed | main.py:56-59 | a new table holds a zero entry for every given agent |
| RankingTables.RankingTable.RecordGame | main.py:36-51 | the in-place field updates, in the source's order, leave exactly the table that ApplyResult specifies |
| RankingTables.RecordGameSound | main.py:39-50 | the Wins/Losses/Draws step followed by the score step equals ApplyResult, including when both agents are the same |
| RankingTables.RankingTable.Absorb | main.py:126-130 | the four field additions for every agent of the unit's table leave exactly Merge(old table, unit table) |
| RankingTables.RunMatch | main.py:54-64 | the loop over the games returns MatchTable of the results, keyed by the two agents |
| RankingTables.Aggregate | main.py:117-130 | the merge loop, skipping failed units, returns MergeAll of the outcomes over the zeroed table; each agent's entry is the sum of what the completed units credit it |
| Schedule.Repeat | main.py:105-115 | the innermost loop submits the unit exactly m times |
| Schedule.RepeatCount | main.py:105-115 | m copies of one pair and nothing else |
| Schedule.RowCount | main.py:104-115 | row i holds each pair (i, j) with i < j below the bound exactly m times and nothing else |
| Schedule.RowsCount | main.py:103-115 | the first i rows hold each pair with first position below i exactly m times and nothing else |
| Schedule.UnitsCount | main.py:103-115 | every pair i < j < n is submitted exactly num_matches times; no unit has i == j or j < i |
| Schedule.RowLength | main.py:104-115 | row i up to partner j holds (j-i-1)·m units |
| Schedule.RowsLength | main.py:103-115 | the first i rows hold i(2n-1-i)/2 · m units |
| Schedule.UnitsLength | main.py:103-115 | n agents give n(n-1)/2 · num_matches units in total |
| Schedule.UnitsFacts | main.py:103-115 | the bounds, the multiplicities and the total count of the submitted units together |
| Schedule.InvolvingAppend | main.py:103-115 | the count of an agent's units adds over concatenation |
| Schedule.RepeatInvolving | main.py:105-115 | the m copies of a pair involve an agent m times if it is one of the two players, and never otherwise |
| Schedule.RowInvolvingOwn | main.py:104-115 | agent i plays in (j-i-1)·m units of its own row |
| Schedule.RowInvolvingOther | main.py:104-115 | any other agent plays in m units of row i if it is a partner in that row, and in none otherwise |
| Schedule.RowsInvolving | main.py:103-115 | agent p plays in (n-1)·m units of the first i rows once p < i, and in i·m units before that |
| Schedule.UnitsInvolving | main.py:103-115 | each agent is scheduled in (n-1)·num_matches units: num_matches against every other agent |
| Schedule.GamesInCount | main.py:60 | the games of an agent over units of m games each are m times the units it plays in |
| Schedule.EnumerateUnits | main.py:102-115 | the three nested loops produce exactly Units(n, num_matches), with the bounds, per-pair multiplicities and total count above |
| Ordering.EntriesCount | main.py:137-138 | with distinct agents, the table's items hold the entry of a key once if it is a discovered agent, and never otherwise |
| Ordering.EntriesItems | main.py:137-138 | the table's items list every key of the table exactly once with its own tally, and hold nothing else |
| Ordering.Insert | main.py:136-140 | inserting an entry adds exactly one element |
| Ordering.InsertMultiset | main.py:136-140 | insertion adds exactly the inserted entry and loses nothing |
| Ordering.InsertAtMost | main.py:136-140 | insertion keeps every score at or below a bound that all the inputs meet |
| Ordering.InsertSorted | main.py:136-140 | insertion into a non-increasing sequence keeps it non-increasing |
| Ordering.SortByScore | main.py:136-140 | sorting keeps the number of entries |
| Ordering.SortMultiset | main.py:136-140 | the sorted sequence is a permutation of the input |
| Ordering.SortSorted | main.py:136-140 | the sorted sequence is non-increasing in score |
| Ordering.WithScoreAppend | main.py:136-140 | selecting the entries of one score distributes over concatenation |
| Ordering.InsertStable | main.py:136-140 | insertion places the new entry ahead of all entries with its score, as if it had been first |
| Ordering.SortStable | main.py:136-140 | for every score, the entries with that score keep their original relative order |
| Ordering.RankingCorrect | main.py:136-140 | the final ranking is a permutation of the table's entries, non-increasing in score, with equal scores in discovery order |
| Ordering.RankingListsAgents | main.py:136-140 | the final ranking lists every agent of the table exactly once, with its own tally, and nothing else |
| LogFilter.KeptLines | main.py:28-32 | filtering never adds lines |
| LogFilter.KeptLinesAppend | main.py:28-32 | each line is kept or dropped on its own, and the kept lines stay in their original order |
| LogFilter.KeptLinesCount | main.py:28-32 | every line not starting with INFO/WARNING/ERROR is kept as often as it occurs; every log line is dropped |
| LogFilter.FirstBreak | main.py:30 | finds the first line boundary; nothing before it is a boundary |
| LogFilter.SplitLines | main.py:30 | no line produced by the split contains a line boundary; which lines they are is fixed by SplitLinesPieces and SplittingUnique |
| LogFilter.SplitAt | main.py:30 | a boundary-free line, one separator ("\r\n" or a single boundary character, a lone "\r" not followed by "\n") and the rest of the text split into that line followed by the lines of the rest |
| LogFilter.SplitLinesPieces | main.py:30 | for every text, some separators placed after its lines rebuild the text exactly: each line is boundary-free and followed by "\r\n" or one boundary character, only the last line may end the text without one (and is then non-empty), and a lone "\r" is never followed by "\n" |
| LogFilter.SplittingUnique | main.py:30 | every such cutting of a text into lines and separators yields exactly SplitLines of the text, so the lines are uniquely the text's lines, for "\r\n", "\r" and final-newline output alike |
| LogFilter.SplitJoin | main.py:28-32 | joining boundary-free lines with "\n", the last line non-empty, and splitting again gives the lines back |
| LogFilter.SplitJoinTerminated | main.py:28-32 | joining boundary-free lines with "\n" and ending the text with a newline, as printed output does, splits back into exactly those lines |
| LogFilter.JsonTextLines | main.py:28-33 | the text handed to the JSON decoder splits back into exactly the kept lines, in order |
| Tournament.Outcome | main.py:117-124 | a unit's future holds None exactly when run_match raised; otherwise it holds a table keyed by the unit's two agents |
| Tournament.Outcomes | main.py:102-124 | one outcome per submitted unit, each over agents of the global table |
| Tournament.FinalTable | main.py:96-130 | the final table has exactly the discovered agents as keys |
| Tournament.PickPermutation | main.py:117 | taking the submitted futures in any completion order (a permutation of their positions) yields each future exactly once |
| Tournament.Submit | main.py:102-115 | the submission loop yields exactly Outcomes of the scheduled units |
| Tournament.RunTournament | main.py:96-140 | the written ranking is the sorted final table, whatever the completion order |
| Tournament.UnitGames | main.py:54-64 | a completed unit credits num_matches games to each of its two agents and none to anyone else |
| Tournament.OutcomesGames | main.py:117-130 | with no failures, an agent's total games over the units are num_matches per unit it plays in |
| Tournament.FinalEntry | main.py:96-130 | each agent's final entry is everything the completed units credit it |
| Tournament.FinalGames | main.py:96-130 | with no failures, each agent's final games are num_matches times the units it plays in |
| Tournament.GamesPerAgent | main.py:96-130 | with no failures, each agent ends with (n-1)·num_matches² games recorded |

## Left out

- `run_game` (main.py:12-22) starts the external engine as a subprocess. The model takes
  each unit's game results, or its failure, as the input `runs`.
- `json.loads` (main.py:33) is not modelled. A decoded result is the record `GameResult`.
  Output that does not decode, or lacks `winner_pid` or a score, makes its unit raise,
  which is `UnitRun.Failed`. `LogFilter.JsonText` is the text the decoder receives.
- `json.dump` and the output file (main.py:142-144) are not modelled. The model ends with
  the sorted sequence of entries.
- The thread pool and `as_completed` (main.py:101, 117) are not modelled. The completion
  order is the input permutation `order` of the submitted units. Threads and blocking are
  not modelled.
- `argparse` and `os.listdir` (main.py:68-94) are not modelled. The agents are an input
  sequence of distinct names (file names in one directory).
- Logging and timing (main.py:91, 100, 118, 123, 132-133, 146-147) are not modelled; they
  have no effect on the table.
- `num_matches` is a `nat` in the model. argparse's `type=int` (main.py:78-82) also accepts
  a negative value. That makes every `range(num_matches)` empty, so such a run is the run
  with `num_matches = 0`.
- `winner_pid` is an `int` in the model. The decoded JSON value may also be `null`, a
  string, a bool or a float. Python's `==` treats `true` and `1.0` as 1 and `false` and
  `0.0` as 0. Any other value stands for an int other than 0 or 1, which is a draw.
- Scores may be JSON floats at run time. The model uses unbounded integers, so
  floating-point rounding in the sums is not captured. Float addition is not associative,
  so the program's summed scores (main.py:49-50, 130), and with them the ranking, can
  depend on the `as_completed` order. `Tallies.MergeAllPermutation` and
  `Tournament.RunTournament` prove order-independence for integer scores only.
- `RankingTables.RankingTable.RecordGame`, `Tallies.ApplyResult`: require both agents to be
  in the table. The source would raise KeyError otherwise, but its callers never pass an
  absent agent.
- `RankingTables.RankingTable.Absorb`: visits the unit's agents in an arbitrary order rather
  than the dictionary's insertion order. The result is the same either way.
- `LogFilter.JsonTextLines`: holds only when the last kept line is not empty. A trailing
  empty line vanishes in the round trip, because `splitlines` drops a final empty line.
- `Tournament.GamesPerAgent`: covers the run where no unit fails. With failures,
  `Tournament.FinalEntry` still gives each agent's entry as the sum over the completed
  units.
