/** Per-player statistics as folds over the match log: wins, losses, points
    won, points lost and the head-to-head counts, and the conservation laws
    that tie them to the log. */
module Tallies {
  import opened Records

  /** A statistic kept per player. WonAgainst(o) and LostTo(o) are the two
      halves of a head-to-head cell against opponent o. */
  datatype Stat = Won | Lost | PointsFor | PointsAgainst | WonAgainst(opponent: Player) | LostTo(opponent: Player)

  /** Statistics that count matches rather than points. */
  predicate IsCount(s: Stat) {
    !s.PointsFor? && !s.PointsAgainst?
  }

  /** What one match adds to statistic s of player p. */
  function Credit(m: Match, p: Player, s: Stat): (c: int)
    ensures IsCount(s) ==> 0 <= c <= 1
    ensures s == Won || s == Lost ==> (c == 1 <==> (if s == Won then Winner(m) else Loser(m)) == p)
  {
    match s
    case Won => if Winner(m) == p then 1 else 0
    case Lost => if Loser(m) == p then 1 else 0
    case PointsFor => (if m.p1 == p then m.score1 else 0) + (if m.p2 == p then m.score2 else 0)
    case PointsAgainst => (if m.p1 == p then m.score2 else 0) + (if m.p2 == p then m.score1 else 0)
    case WonAgainst(o) => if Winner(m) == p && Loser(m) == o then 1 else 0
    case LostTo(o) => if Loser(m) == p && Winner(m) == o then 1 else 0
  }

  /** Statistic s of player p over the whole log: the running total the
      source's loop accumulates, one record at a time. */
  function Tally(log: seq<Match>, p: Player, s: Stat): (t: int)
    ensures IsCount(s) ==> 0 <= t <= |log|
  {
    if log == [] then 0 else Tally(log[..|log| - 1], p, s) + Credit(log[|log| - 1], p, s)
  }

  /** Number of records in which p takes part. */
  function Played(log: seq<Match>, p: Player): nat {
    if log == [] then 0
    else
      var m := log[|log| - 1];
      Played(log[..|log| - 1], p) + (if m.p1 == p || m.p2 == p then 1 else 0)
  }

  /** When every record pairs two different players, each match a player
      takes part in is exactly one of their wins or losses. */
  lemma {:induction false} PlayedIsWinsPlusLosses(log: seq<Match>, p: Player)
    requires WellFormed(log)
    ensures Tally(log, p, Won) + Tally(log, p, Lost) == Played(log, p)
  {
    if log != [] {
      var init := log[..|log| - 1];
      assert WellFormed(init) by {
        forall i | 0 <= i < |init| ensures init[i].p1 != init[i].p2 { assert init[i] == log[i]; }
      }
      assert log[|log| - 1].p1 != log[|log| - 1].p2;
      PlayedIsWinsPlusLosses(init, p);
    }
  }

  /** A player who took part in no record has every statistic at zero. */
  lemma {:induction false} NeverPlayedZero(log: seq<Match>, p: Player, s: Stat)
    requires Played(log, p) == 0
    ensures Tally(log, p, s) == 0
  {
    if log != [] {
      NeverPlayedZero(log[..|log| - 1], p, s);
    }
  }

  /** Sum of both scores over all matches. */
  function TotalPoints(log: seq<Match>): int {
    if log == [] then 0
    else TotalPoints(log[..|log| - 1]) + log[|log| - 1].score1 + log[|log| - 1].score2
  }

  /** Statistic s summed over the players in ps. */
  function SumOver(ps: seq<Player>, log: seq<Match>, s: Stat): int {
    if ps == [] then 0 else SumOver(ps[..|ps| - 1], log, s) + Tally(log, ps[|ps| - 1], s)
  }

  /** What one match adds to statistic s, summed over the players in ps. */
  function CreditSum(ps: seq<Player>, m: Match, s: Stat): int {
    if ps == [] then 0 else CreditSum(ps[..|ps| - 1], m, s) + Credit(m, ps[|ps| - 1], s)
  }

  lemma {:induction false} TallyAppend(log: seq<Match>, m: Match, p: Player, s: Stat)
    ensures Tally(log + [m], p, s) == Tally(log, p, s) + Credit(m, p, s)
  {
    assert (log + [m])[..|log|] == log;
  }

  lemma {:induction false} SumOverAppend(ps: seq<Player>, log: seq<Match>, m: Match, s: Stat)
    ensures SumOver(ps, log + [m], s) == SumOver(ps, log, s) + CreditSum(ps, m, s)
  {
    if ps != [] {
      SumOverAppend(ps[..|ps| - 1], log, m, s);
      TallyAppend(log, m, ps[|ps| - 1], s);
    }
  }

  lemma {:induction false} SumOverEmpty(ps: seq<Player>, s: Stat)
    ensures SumOver(ps, [], s) == 0
  {
    if ps != [] {
      SumOverEmpty(ps[..|ps| - 1], s);
    }
  }

  /** Over the roster, the credits of one match are those of its three players. */
  lemma RosterCreditSum(m: Match, s: Stat)
    ensures CreditSum(Roster, m, s) == Credit(m, Gregi, s) + Credit(m, Tomi, s) + Credit(m, Brina, s)
  {
    assert Roster[..2] == [Gregi, Tomi] && Roster[2] == Brina;
    assert [Gregi, Tomi][..1] == [Gregi];
    assert [Gregi][..0] == [];
    assert CreditSum(Roster, m, s) == CreditSum([Gregi, Tomi], m, s) + Credit(m, Brina, s);
    assert CreditSum([Gregi, Tomi], m, s) == CreditSum([Gregi], m, s) + Credit(m, Tomi, s);
    assert CreditSum([Gregi], m, s) == Credit(m, Gregi, s);
  }

  /** Over the whole roster, one match adds one win, one loss, and its two
      scores to points won and to points lost. */
  lemma RosterCredit(m: Match)
    ensures CreditSum(Roster, m, Won) == 1
    ensures CreditSum(Roster, m, Lost) == 1
    ensures CreditSum(Roster, m, PointsFor) == m.score1 + m.score2
    ensures CreditSum(Roster, m, PointsAgainst) == m.score1 + m.score2
  {
    RosterCreditSum(m, Won);
    RosterCreditSum(m, Lost);
    RosterCreditSum(m, PointsFor);
    RosterCreditSum(m, PointsAgainst);
  }

  /** Each match credits exactly one win and one loss, so summed over the
      roster both totals equal the number of matches. */
  lemma {:induction false} WinsAndLossesBalance(log: seq<Match>)
    ensures SumOver(Roster, log, Won) == |log|
    ensures SumOver(Roster, log, Lost) == |log|
  {
    if log == [] {
      SumOverEmpty(Roster, Won);
      SumOverEmpty(Roster, Lost);
    } else {
      var init, m := log[..|log| - 1], log[|log| - 1];
      assert log == init + [m];
      WinsAndLossesBalance(init);
      SumOverAppend(Roster, init, m, Won);
      SumOverAppend(Roster, init, m, Lost);
      RosterCredit(m);
    }
  }

  /** Points are conserved: over the roster, points won and points lost both
      equal the sum of every score in the log. */
  lemma {:induction false} PointsConserved(log: seq<Match>)
    ensures SumOver(Roster, log, PointsFor) == TotalPoints(log)
    ensures SumOver(Roster, log, PointsAgainst) == TotalPoints(log)
  {
    if log == [] {
      SumOverEmpty(Roster, PointsFor);
      SumOverEmpty(Roster, PointsAgainst);
    } else {
      var init, m := log[..|log| - 1], log[|log| - 1];
      assert log == init + [m];
      PointsConserved(init);
      SumOverAppend(Roster, init, m, PointsFor);
      SumOverAppend(Roster, init, m, PointsAgainst);
      RosterCredit(m);
    }
  }

  /** The four per-player dictionaries of the source. */
  datatype Totals = Totals(wins: map<Player, int>, losses: map<Player, int>,
                           pointsWon: map<Player, int>, pointsLost: map<Player, int>)

  /** Dictionary d has an entry for every player, holding that player's
      statistic s over the log. */
  predicate Holds(d: map<Player, int>, log: seq<Match>, s: Stat) {
    forall p: Player :: p in d && d[p] == Tally(log, p, s)
  }

  /** Each of the four dictionaries holds its statistic over the log. */
  predicate Describes(t: Totals, log: seq<Match>) {
    && Holds(t.wins, log, Won)
    && Holds(t.losses, log, Lost)
    && Holds(t.pointsWon, log, PointsFor)
    && Holds(t.pointsLost, log, PointsAgainst)
  }

  function Zeros(): map<Player, int> {
    map p | p in Roster :: 0
  }

  lemma ZerosHold(s: Stat)
    ensures Holds(Zeros(), [], s)
  {
    forall p: Player ensures p in Zeros() { RosterComplete(p); }
  }

  /** Adding each player's credit for the next record keeps a dictionary in
      step with the records it has seen. */
  lemma HoldsStep(before: map<Player, int>, after: map<Player, int>, seen: seq<Match>, m: Match, s: Stat)
    requires Holds(before, seen, s)
    requires forall p: Player :: p in after && after[p] == before[p] + Credit(m, p, s)
    ensures Holds(after, seen + [m], s)
  {
    forall p: Player ensures after[p] == Tally(seen + [m], p, s) {
      TallyAppend(seen, m, p, s);
    }
  }

  /** The win or loss update for one more record: one more for its winner
      (or loser). */
  lemma CountStep(d: map<Player, int>, seen: seq<Match>, m: Match, s: Stat)
    requires s == Won || s == Lost
    requires Holds(d, seen, s)
    ensures var who := if s == Won then Winner(m) else Loser(m);
            Holds(d[who := d[who] + 1], seen + [m], s)
  {
    var who := if s == Won then Winner(m) else Loser(m);
    HoldsStep(d, d[who := d[who] + 1], seen, m, s);
  }

  /** The two points updates for one more record, for points won (each
      player gets their own score) and points lost (the other score). */
  lemma PointsStep(d: map<Player, int>, seen: seq<Match>, m: Match, s: Stat)
    requires s == PointsFor || s == PointsAgainst
    requires Holds(d, seen, s)
    ensures var a, b := if s == PointsFor then m.score1 else m.score2, if s == PointsFor then m.score2 else m.score1;
            var d' := d[m.p1 := d[m.p1] + a];
            Holds(d'[m.p2 := d'[m.p2] + b], seen + [m], s)
  {
    var a, b := if s == PointsFor then m.score1 else m.score2, if s == PointsFor then m.score2 else m.score1;
    var d' := d[m.p1 := d[m.p1] + a];
    HoldsStep(d, d'[m.p2 := d'[m.p2] + b], seen, m, s);
  }

  /** The four updates of one loop iteration over record i. */
  lemma PrefixStep(wins: map<Player, int>, losses: map<Player, int>,
                   pointsWon: map<Player, int>, pointsLost: map<Player, int>, log: seq<Match>, i: nat)
    requires i < |log|
    requires Holds(wins, log[..i], Won) && Holds(losses, log[..i], Lost)
    requires Holds(pointsWon, log[..i], PointsFor) && Holds(pointsLost, log[..i], PointsAgainst)
    ensures var m := log[i];
            && Holds(wins[Winner(m) := wins[Winner(m)] + 1], log[..i + 1], Won)
            && Holds(losses[Loser(m) := losses[Loser(m)] + 1], log[..i + 1], Lost)
            && (var won := pointsWon[m.p1 := pointsWon[m.p1] + m.score1];
                Holds(won[m.p2 := won[m.p2] + m.score2], log[..i + 1], PointsFor))
            && (var lost := pointsLost[m.p1 := pointsLost[m.p1] + m.score2];
                Holds(lost[m.p2 := lost[m.p2] + m.score1], log[..i + 1], PointsAgainst))
  {
    var m := log[i];
    assert log[..i + 1] == log[..i] + [m];
    CountStep(wins, log[..i], m, Won);
    CountStep(losses, log[..i], m, Lost);
    PointsStep(pointsWon, log[..i], m, PointsFor);
    PointsStep(pointsLost, log[..i], m, PointsAgainst);
  }

  /** One pass over the log, updating the four dictionaries in place. */
  method CountTallies(log: seq<Match>) returns (t: Totals)
    ensures Describes(t, log)
  {
    var wins, losses, pointsWon, pointsLost := Zeros(), Zeros(), Zeros(), Zeros();
    ZerosHold(Won); ZerosHold(Lost); ZerosHold(PointsFor); ZerosHold(PointsAgainst);
    for i := 0 to |log|
      invariant Holds(wins, log[..i], Won)
      invariant Holds(losses, log[..i], Lost)
      invariant Holds(pointsWon, log[..i], PointsFor)
      invariant Holds(pointsLost, log[..i], PointsAgainst)
    {
      var m := log[i];
      PrefixStep(wins, losses, pointsWon, pointsLost, log, i);
      if m.score1 > m.score2 {
        wins := wins[m.p1 := wins[m.p1] + 1];
        losses := losses[m.p2 := losses[m.p2] + 1];
      } else {
        wins := wins[m.p2 := wins[m.p2] + 1];
        losses := losses[m.p1 := losses[m.p1] + 1];
      }
      pointsWon := pointsWon[m.p1 := pointsWon[m.p1] + m.score1];
      pointsLost := pointsLost[m.p1 := pointsLost[m.p1] + m.score2];
      pointsWon := pointsWon[m.p2 := pointsWon[m.p2] + m.score2];
      pointsLost := pointsLost[m.p2 := pointsLost[m.p2] + m.score1];
    }
    assert log[..|log|] == log;
    t := Totals(wins, losses, pointsWon, pointsLost);
  }
}
