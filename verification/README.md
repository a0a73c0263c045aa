# Ping-pong score tracker: the match-log engine

The tracker keeps an append-only log of table-tennis matches among a fixed
roster of three players (Gregi, Tomi, Brina). Its entry form reads a score
typed as `s1-s2`, checks it against the table-tennis rule (someone reached
11, the margin is at least 2) and appends the accepted match. From the log
it derives four tables:
- per-player tallies of wins, losses, points won and points lost;
- a leaderboard with win percentage, sorted by wins, most first;
- a head-to-head matrix of wins and losses for every ordered pair of different players;
- one wins/losses table per calendar month.

This project models that engine in Dafny. Each entity of the source has a
counterpart in the model:

| Source | Model |
|---|---|
| Players | the `Player` enumeration and the ordered `Roster` |
| A match record | the `Match` datatype |
| The stored match list | the `MatchLog` class, whose `Submit` method appends one record |
| Each loop over the log that fills dictionaries | a method with a `for` loop that updates `map` locals: `map<Player, int>` counters in `CountTallies` and `CountMonth`, a nested `map<Player, map<Player, WinLoss>>` in `BuildHeadToHead` |
| The loops that build table rows | methods that append to a `seq` of rows and sort it: `Leaderboard`, `MonthTableOf`, and `BuildMonthlyTables` for the list of monthly tables |

Each of those methods is proved against a recursive specification function,
`Tally`. `Tally` folds one credit per record, and the properties of the
tables are proved as lemmas about it:
- wins and losses balance;
- points are conserved;
- the matrix is symmetric;
- its rows add up to the tallies;
- the months partition the log.

Modules:
- `Records` (records.dfy): players, dates, matches, winner and loser.
- `Tallies` (tallies.dfy): the per-player fold and the four-dictionary pass.
- `ScoreEntry` (entry.dfy): parsing and judging the score text, and the match log.
- `Ranking` (ranking.dfy): sorting rows by a numeric column, largest first.
- `Standings` (standings.dfy): the leaderboard.
- `HeadToHead` (headtohead.dfy): the head-to-head matrix.
- `Monthly` (monthly.dfy): the monthly tables.

The source's "Scores must be positive" branch cannot be reached. Splitting
the text on `-` never leaves a minus sign inside a piece, so a parsed score
is never negative. `ScoreEntry.Judge` states this: its outcome is never
`NotPositive`.

The leaderboard and monthly tables use the table library's default sort,
which is not guaranteed to keep tied rows in roster order, so the model
promises only a permutation sorted by wins. Months are listed in the order the log first
reaches them, since they come from de-duplicating the record dates; they are
not sorted chronologically.

## Model

| member | source | states |
|---|---|---|
| Records.Winner | app.py:50-56 | The winner is one of the two players; when they differ, it is player 1 exactly when score 1 is greater (a tie goes to player 2). |
| Records.Loser | app.py:50-56 | The loser is the other participant: player 2 exactly when score 1 is greater. |
| Records.RosterComplete | app.py:14 | Every player is on the roster, and the roster lists no one twice. |
| Tallies.Credit | app.py:50-60 | One record credits a player with at most one win or loss, and with a win (loss) exactly when the player is its winner (loser). |
| Tallies.Tally | app.py:45-60 | A count statistic of a player lies between 0 and the number of records. |
| Tallies.TallyAppend | app.py:50-60 | One more record changes every running tally by exactly that record's credit. |
| Tallies.RosterCredit | app.py:50-60 | Across the roster, one record hands out exactly one win, one loss, and its total points both as points won and as points lost. |
| Tallies.WinsAndLossesBalance | app.py:45-56 | Summed over the roster, total wins equal the number of matches, and so do total losses. |
| Tallies.PointsConserved | app.py:57-60 | Summed over the roster, points won and points lost each equal the sum of both scores over all matches. |
| Tallies.PlayedIsWinsPlusLosses | app.py:50-56 | When every record pairs two different players, a player's wins plus losses equal the number of matches the player took part in. |
| Tallies.NeverPlayedZero | app.py:45-60 | A player who took part in no match has every statistic at zero. |
| Tallies.ZerosHold | app.py:45-48 | The all-zero dictionaries are the tallies of the empty log. |
| Tallies.CountStep | app.py:51-56 | Adding one to the winner's (loser's) count keeps the win (loss) dictionary equal to the tallies of the longer prefix. |
| Tallies.PointsStep | app.py:57-60 | Adding player 1's then player 2's points keeps the points dictionaries equal to the tallies of the longer prefix. |
| Tallies.CountTallies | app.py:45-60 | The four dictionaries the loop fills hold, for every roster player, exactly the player's wins, losses, points won and points lost over the whole log. |
| ScoreEntry.Split | app.py:28 | Splitting on `-` gives one more piece than there are `-` characters, and no piece contains `-`. |
| ScoreEntry.SplitJoin | app.py:28 | Splitting loses nothing: joining the pieces with `-` between neighbours gives back the text. |
| ScoreEntry.ShowNat | app.py:22 | The decimal spelling of a number is a non-empty run of digits. |
| ScoreEntry.ParseNat | app.py:28 | A piece is read as a number exactly when it is a non-empty run of decimal digits no longer than 4300 digits, the most `int()` converts. |
| ScoreEntry.ParseShowNat | app.py:28 | Reading back the decimal spelling of a number (within the digit limit) gives the number. |
| ScoreEntry.ShowParseNat | app.py:28 | The other direction: digits without a leading zero, within the limit, are read as a number whose spelling is those same digits. |
| ScoreEntry.SplitPair | app.py:28 | Text with one `-` between two pieces without `-` splits into exactly those two pieces. |
| ScoreEntry.ParseScore | app.py:28 | A score is read only from text with exactly one `-`. |
| ScoreEntry.ParsePieces | app.py:28 | A text made of two pieces around one `-` is read exactly when both pieces read as numbers, and then as those two numbers; otherwise the unpacking fails. |
| ScoreEntry.ParseScoreShape | app.py:28 | Conversely, every text that is read is two pieces without `-` around one `-`, each read as a number, and the pair is their values. |
| ScoreEntry.ParseShowScore | app.py:28 | Round trip: the text `s1-s2` for any two non-negative scores within the digit limit reads back as the pair. |
| ScoreEntry.Check | app.py:29-34 | A pair is accepted iff the higher score is at least 11, the margin is at least 2 and neither score is negative; an accepted pair is kept unchanged. The threshold-and-margin message comes exactly when nobody reached 11 or the margin is below 2, whatever the signs, so the sign message only covers pairs that pass that test. |
| ScoreEntry.Judge | app.py:27-43 | The form reports a bad format exactly when the text does not parse. It saves exactly when the text parses and the rule holds, and a saved outcome carries the parsed pair. It never reports a negative score. |
| ScoreEntry.RuleExamples | app.py:30-34 | 11-10 and 10-8 are refused; 11-9, 15-13, 21-19 and 9-11 are accepted. |
| ScoreEntry.AcceptedForms | app.py:28-41 | The texts "11-9" and "15-13" are saved with those scores. |
| ScoreEntry.RejectedForms | app.py:28-43 | "11-10" breaks the rule; "-11-9" and "11" are badly formatted. |
| ScoreEntry.BadPieceForms | app.py:28-43 | "11-" and "11-x" have one `-` but a piece that is not a number, so they are badly formatted. |
| ScoreEntry.LeadingZeroForm | app.py:28-41 | "011-9" is saved as 11 to 9, as `int()` reads a leading zero. |
| ScoreEntry.MatchLog.constructor | app.py:9-12 | The log starts as the stored list of matches. |
| ScoreEntry.MatchLog.Submit | app.py:19-43 | Submission reports the form's verdict. An accepted score appends exactly one record, at the end, with the chosen players, the parsed scores and the given day. Otherwise the log is unchanged. Logs pairing two different players stay so. |
| Ranking.ConsDescending | app.py:86 | A row with at least the key of the first row can be put in front of a descending sequence. |
| Ranking.Insert | app.py:86 | Inserting a row into a descending sequence adds exactly that row and keeps the order. |
| Ranking.SortDescending | app.py:86 | The sorted rows are a permutation of the input, with keys non-increasing. |
| Ranking.ReorderedRosterRows | app.py:72-86 | Any reordering of rows built once per roster player contains each player exactly once, each with a row that was built. |
| Standings.WinPercent | app.py:74-75 | The win percentage lies in [0, 100]. It is 0 when the player has no matches, and otherwise it is exactly 100 times wins over matches. |
| Standings.StandingOf | app.py:76-83 | A player's row names that player. On logs pairing different players, its wins and losses add up to the matches the player played, the total the win percentage divides by. A player without matches gets the all-zero row. |
| Standings.PlayedFacts | app.py:74-83 | The facts behind a row: wins plus losses equal matches played, and a player without matches has all four statistics at zero. |
| Standings.RosterStandings | app.py:72-83 | One row per roster player, in roster order. |
| Standings.Leaderboard | app.py:72-86 | The leaderboard is a permutation of the roster rows. Wins never increase down the table. Every player appears exactly once, with their own wins, losses, win percentage and points. |
| HeadToHead.Opponents | app.py:93 | A player's columns are exactly the other players, each once. |
| HeadToHead.Symmetric | app.py:95-101 | Over any log, a's wins against b equal b's losses to a, and a's losses to b equal b's wins against a. |
| HeadToHead.RowSumsMatchTallies | app.py:93-101 | For logs pairing two different players, a player's row of the matrix adds up to that player's total wins and losses. |
| HeadToHead.EmptyMatrix | app.py:93 | The initial matrix has a cell for every ordered pair of different players and none on the diagonal, and it is the matrix of the empty log. |
| HeadToHead.Recorded | app.py:96-101 | Recording one match keeps every row's columns: still every other player and no diagonal. |
| HeadToHead.RecordedCell | app.py:96-101 | Recording a match changes exactly two cells: the winner's wins against the loser, and the loser's losses to the winner. |
| HeadToHead.StepMatrix | app.py:95-101 | Recording the next match keeps the matrix equal to the record of every pair over the longer prefix. |
| HeadToHead.BuildHeadToHead | app.py:93-101 | The matrix has no diagonal cell, each cell holds the row player's wins and losses against the column player, and the wins of (a, b) equal the losses of (b, a). |
| Records.SamePeriod | app.py:133-134 | Two matches fall in the same monthly period exactly when their dates agree on year and month; the day never matters. |
| Monthly.Months | app.py:123-124 | The months list has no repeats and contains exactly the months in which some match was played. |
| Monthly.FirstIndex | app.py:123-124 | The position of a month's first record: a record of that month, with none before it. |
| Monthly.MonthsInFirstAppearanceOrder | app.py:123-124 | Months are listed in the order of their first record in the log. |
| Monthly.MonthsAppend | app.py:123-124 | A new record adds its month at the end exactly when that month is new. |
| Monthly.InMonth | app.py:132-134 | A month's records all belong to that month, and there are some exactly when the month occurs in the log. Filtering keeps records pairing different players so. |
| Monthly.MonthSumAppend | app.py:130-140 | A new record changes the sum over distinct months by its own credit, counted once, in its own month. |
| Monthly.MonthlySumsToOverall | app.py:123-140 | Any statistic summed over the monthly tables equals that statistic over the whole log. |
| Monthly.MonthStep | app.py:132-140 | Each pass step increments the month's win and loss counters exactly when the record belongs to the month. |
| Monthly.CountMonth | app.py:130-140 | A month's counters hold each player's wins and losses among that month's records. |
| Monthly.MonthRowOf | app.py:143 | A monthly row names its player. On logs pairing different players, its wins and losses add up to the player's matches that month. A month without records would give the all-zero row. |
| Monthly.MonthTableOf | app.py:127-144 | One month's table: every roster player exactly once with that month's wins and losses, sorted by wins, most first. |
| Monthly.BuildMonthlyTables | app.py:123-144 | There is one table per month, in first-appearance order. Each holds every roster player exactly once with that month's wins and losses, sorted by wins, most first. |

## Left out

- Streamlit widgets, headings, messages and the rendering of every table are left out. The `if not df.empty` guard only hides the tables, so the model computes them for the empty log too.
- Reading and writing the JSON store is not modelled. The stored log is the constructor's parameter.
- The clock is not modelled: `MatchLog.Submit` takes the current day as a parameter.
- Record dates are kept as year, month and day. Parsing timestamp strings, converting them to monthly periods and the month labels are left out.
- The win percentage is an exact rational. Its one-decimal text formatting is left out.
- The matrix's text cells (`W-L`, and `-` on the diagonal) are left out. `BuildHeadToHead` gives the counts behind them.
- The table of the last five matches and the full match table are left out. So are the `point_diff` and `result` columns, which nothing reads. All of these are display only.
- Records naming a player outside the roster are not modelled. The player type has only the three roster players; the source would fail with a missing key.
- HeadToHead.BuildHeadToHead requires every record to pair two different players. The source's matrix has no cell for a player against themselves, so such a record makes it fail with a missing key. The entry form cannot create one.
- ScoreEntry.ParseScore accepts only plain decimal digits between the `-`, at most 4300 of them (CPython's default limit for converting text to `int`). Python's `int()` also accepts surrounding whitespace, a leading `+`, digit-group underscores and non-ASCII digits; the model reports those texts as badly formatted. An interpreter with a different digit limit is not modelled.
- Ranking.SortDescending does not fix the order of rows with equal wins, because the table library's default sort does not promise one.
- Streaks, the biggest win per player and the longest match are not computed in `app.py`, so they are not part of this model.
