/** The player leaderboard: one row per roster player with wins, losses, win
    percentage and points, ordered by wins, most first. */
module Standings {
  import opened Records
  import opened Tallies
  import opened Ranking

  /** Wins as a percentage of matches played; 0 for a player without
      matches, so there is never a division by zero. */
  function WinPercent(wins: nat, losses: nat): (pct: real)
    ensures 0.0 <= pct <= 100.0
    ensures wins + losses == 0 ==> pct == 0.0
    ensures wins + losses > 0 ==> pct * (wins + losses) as real == 100.0 * wins as real
  {
    var total := wins + losses;
    if total > 0 then
      var pct := wins as real / total as real * 100.0;
      assert wins as real / total as real <= 1.0;
      pct
    else 0.0
  }

  /** One leaderboard row. */
  datatype Standing = Standing(player: Player, wins: nat, losses: nat, winPct: real,
                               pointsWon: int, pointsLost: int)

  function WinsOf(row: Standing): int {
    row.wins
  }

  function PlayerOf(row: Standing): Player {
    row.player
  }

  /** The row of player p over the log. On logs pairing two different
      players, wins and losses split the matches p played, so the win
      percentage is taken over those matches; a player without matches gets
      the all-zero row. */
  function StandingOf(log: seq<Match>, p: Player): (row: Standing)
    ensures row.player == p
    ensures WellFormed(log) ==> row.wins + row.losses == Played(log, p)
    ensures Played(log, p) == 0 ==> row == Standing(p, 0, 0, 0.0, 0, 0)
  {
    var w, l := Tally(log, p, Won), Tally(log, p, Lost);
    PlayedFacts(log, p);
    Standing(p, w, l, WinPercent(w, l), Tally(log, p, PointsFor), Tally(log, p, PointsAgainst))
  }

  /** What the number of matches p played fixes about p's statistics. */
  lemma PlayedFacts(log: seq<Match>, p: Player)
    ensures WellFormed(log) ==> Tally(log, p, Won) + Tally(log, p, Lost) == Played(log, p)
    ensures Played(log, p) == 0 ==>
              && Tally(log, p, Won) == 0 && Tally(log, p, Lost) == 0
              && Tally(log, p, PointsFor) == 0 && Tally(log, p, PointsAgainst) == 0
  {
    if WellFormed(log) {
      PlayedIsWinsPlusLosses(log, p);
    }
    if Played(log, p) == 0 {
      NeverPlayedZero(log, p, Won);
      NeverPlayedZero(log, p, Lost);
      NeverPlayedZero(log, p, PointsFor);
      NeverPlayedZero(log, p, PointsAgainst);
    }
  }

  /** The rows in roster order, before sorting. */
  function RosterStandings(log: seq<Match>): (rows: seq<Standing>)
    ensures |rows| == |Roster|
    ensures forall k :: 0 <= k < |Roster| ==> rows[k].player == Roster[k]
  {
    seq(|Roster|, k requires 0 <= k < |Roster| => StandingOf(log, Roster[k]))
  }

  /** Builds one row per roster player from the tallies, then sorts by wins.
      Every roster player appears exactly once, players without matches
      included, each row holds that player's own statistics, and wins never
      increase down the table. */
  method Leaderboard(log: seq<Match>) returns (board: seq<Standing>)
    ensures multiset(board) == multiset(RosterStandings(log))
    ensures Descending(board, WinsOf)
    ensures forall p: Player :: p in Players(board, PlayerOf)
    ensures Distinct(Players(board, PlayerOf))
    ensures forall i :: 0 <= i < |board| ==> board[i] == StandingOf(log, board[i].player)
  {
    var t := CountTallies(log);
    var data: seq<Standing> := [];
    for k := 0 to |Roster|
      invariant data == RosterStandings(log)[..k]
    {
      var p := Roster[k];
      assert t.wins[p] == Tally(log, p, Won) && t.losses[p] == Tally(log, p, Lost);
      assert t.pointsWon[p] == Tally(log, p, PointsFor) && t.pointsLost[p] == Tally(log, p, PointsAgainst);
      data := data + [Standing(p, t.wins[p], t.losses[p], WinPercent(t.wins[p], t.losses[p]),
                               t.pointsWon[p], t.pointsLost[p])];
    }
    assert data == RosterStandings(log);
    board := SortDescending(data, WinsOf);
    ReorderedRosterRows(board, data, PlayerOf);
  }
}
