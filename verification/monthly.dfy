/** The monthly tables: for every calendar month that has matches, in the
    order the log first reaches it, each player's wins and losses within
    that month. */
module Monthly {
  import opened Records
  import opened Tallies
  import opened Ranking

  /** Some record of the log was played in month mo. */
  predicate Occurs(log: seq<Match>, mo: YearMonth) {
    exists i :: 0 <= i < |log| && MonthOf(log[i]) == mo
  }

  lemma OccursAppend(log: seq<Match>, m: Match, mo: YearMonth)
    ensures Occurs(log + [m], mo) <==> Occurs(log, mo) || MonthOf(m) == mo
  {
    if Occurs(log, mo) {
      var i :| 0 <= i < |log| && MonthOf(log[i]) == mo;
      assert (log + [m])[i] == log[i];
    }
    if Occurs(log + [m], mo) && MonthOf(m) != mo {
      var i :| 0 <= i < |log + [m]| && MonthOf((log + [m])[i]) == mo;
      assert i < |log| && (log + [m])[i] == log[i];
    }
    if MonthOf(m) == mo {
      assert (log + [m])[|log|] == m;
    }
  }

  /** The distinct months of the log, each listed once, in the order of their
      first record; no chronological sort is applied. */
  function Months(log: seq<Match>): (ms: seq<YearMonth>)
    ensures Distinct(ms)
    ensures forall mo :: mo in ms <==> Occurs(log, mo)
  {
    if log == [] then []
    else
      var init, m := log[..|log| - 1], log[|log| - 1];
      var ms := Months(init);
      assert log == init + [m];
      OccursAppend(init, m, MonthOf(m));
      assert forall mo :: Occurs(log, mo) <==> Occurs(init, mo) || MonthOf(m) == mo by {
        forall mo ensures Occurs(log, mo) <==> Occurs(init, mo) || MonthOf(m) == mo {
          OccursAppend(init, m, mo);
        }
      }
      if MonthOf(m) in ms then ms else ms + [MonthOf(m)]
  }

  /** Position of the first record of month mo. */
  function FirstIndex(log: seq<Match>, mo: YearMonth): (k: nat)
    requires Occurs(log, mo)
    ensures k < |log| && MonthOf(log[k]) == mo
    ensures forall i :: 0 <= i < k ==> MonthOf(log[i]) != mo
  {
    if MonthOf(log[0]) == mo then 0
    else
      assert Occurs(log[1..], mo) by {
        var i :| 0 <= i < |log| && MonthOf(log[i]) == mo;
        assert i > 0 && log[1..][i - 1] == log[i];
      }
      1 + FirstIndex(log[1..], mo)
  }

  lemma FirstIndexAppend(log: seq<Match>, m: Match, mo: YearMonth)
    requires Occurs(log, mo)
    ensures Occurs(log + [m], mo) && FirstIndex(log + [m], mo) == FirstIndex(log, mo)
  {
    OccursAppend(log, m, mo);
    var k, k' := FirstIndex(log, mo), FirstIndex(log + [m], mo);
    assert (log + [m])[k] == log[k];
  }

  /** Months are listed in the order in which the log first reaches them. */
  lemma {:induction false} MonthsInFirstAppearanceOrder(log: seq<Match>)
    ensures forall i, j :: 0 <= i < j < |Months(log)| ==>
              FirstIndex(log, Months(log)[i]) < FirstIndex(log, Months(log)[j])
  {
    if log != [] {
      var init, m := log[..|log| - 1], log[|log| - 1];
      assert log == init + [m];
      var ms, ms' := Months(init), Months(log);
      MonthsInFirstAppearanceOrder(init);
      forall i | 0 <= i < |ms|
        ensures FirstIndex(log, ms[i]) == FirstIndex(init, ms[i]) < |init|
      {
        FirstIndexAppend(init, m, ms[i]);
      }
    }
  }

  /** The records of month mo, in log order. */
  function InMonth(log: seq<Match>, mo: YearMonth): (r: seq<Match>)
    ensures |r| <= |log|
    ensures forall k :: 0 <= k < |r| ==> MonthOf(r[k]) == mo
    ensures r == [] <==> !Occurs(log, mo)
    ensures WellFormed(log) ==> WellFormed(r)
  {
    if log == [] then []
    else
      var init, m := log[..|log| - 1], log[|log| - 1];
      assert log == init + [m];
      OccursAppend(init, m, mo);
      assert WellFormed(log) ==> WellFormed(init) && m.p1 != m.p2 by {
        if WellFormed(log) {
          forall i | 0 <= i < |init| ensures init[i].p1 != init[i].p2 { assert init[i] == log[i]; }
        }
      }
      InMonth(init, mo) + (if MonthOf(m) == mo then [m] else [])
  }

  /** Statistic s of p within each month of ms, added up. */
  function MonthSum(ms: seq<YearMonth>, log: seq<Match>, p: Player, s: Stat): int {
    if ms == [] then 0
    else MonthSum(ms[..|ms| - 1], log, p, s) + Tally(InMonth(log, ms[|ms| - 1]), p, s)
  }

  lemma InMonthAppend(log: seq<Match>, m: Match, mo: YearMonth)
    ensures InMonth(log + [m], mo) == InMonth(log, mo) + (if MonthOf(m) == mo then [m] else [])
  {
    assert (log + [m])[..|log|] == log;
  }

  /** One more record changes the monthly sums by its credit, counted once,
      in its own month. */
  lemma {:induction false} MonthSumAppend(ms: seq<YearMonth>, log: seq<Match>, m: Match, p: Player, s: Stat)
    requires Distinct(ms)
    ensures MonthSum(ms, log + [m], p, s) == MonthSum(ms, log, p, s) + (if MonthOf(m) in ms then Credit(m, p, s) else 0)
  {
    if ms != [] {
      var init, last := ms[..|ms| - 1], ms[|ms| - 1];
      assert Distinct(init);
      assert forall x :: x in ms <==> x in init || x == last;
      assert last !in init;
      MonthSumAppend(init, log, m, p, s);
      InMonthAppend(log, m, last);
      if MonthOf(m) == last {
        TallyAppend(InMonth(log, last), m, p, s);
      } else {
        assert InMonth(log, last) + [] == InMonth(log, last);
      }
    }
  }

  /** One more record adds its month at the end exactly when the month is new. */
  lemma MonthsAppend(log: seq<Match>, m: Match)
    ensures Months(log + [m]) == if MonthOf(m) in Months(log) then Months(log) else Months(log) + [MonthOf(m)]
  {
    assert (log + [m])[..|log|] == log;
  }

  /** A record that opens a new month is that month's only record. */
  lemma NewMonthSum(ms: seq<YearMonth>, log: seq<Match>, m: Match, p: Player, s: Stat)
    requires !Occurs(log, MonthOf(m))
    ensures MonthSum(ms + [MonthOf(m)], log + [m], p, s) == MonthSum(ms, log + [m], p, s) + Credit(m, p, s)
  {
    var k := MonthOf(m);
    assert (ms + [k])[..|ms|] == ms;
    InMonthAppend(log, m, k);
    assert InMonth(log + [m], k) == [m];
    TallyAppend([], m, p, s);
    assert [] + [m] == [m];
  }

  /** The months partition the log: any statistic summed over the monthly
      tables equals the same statistic over the whole log. */
  lemma {:induction false} MonthlySumsToOverall(log: seq<Match>, p: Player, s: Stat)
    ensures MonthSum(Months(log), log, p, s) == Tally(log, p, s)
  {
    if log != [] {
      var init, m := log[..|log| - 1], log[|log| - 1];
      assert log == init + [m];
      var ms := Months(init);
      MonthsAppend(init, m);
      MonthlySumsToOverall(init, p, s);
      MonthSumAppend(ms, init, m, p, s);
      TallyAppend(init, m, p, s);
      if MonthOf(m) !in ms {
        NewMonthSum(ms, init, m, p, s);
      }
    }
  }

  /** One row of a monthly table. */
  datatype MonthRow = MonthRow(player: Player, wins: nat, losses: nat)

  /** One monthly table: the month and its rows, most wins first. */
  datatype MonthTable = MonthTable(month: YearMonth, rows: seq<MonthRow>)

  function RowWins(row: MonthRow): int {
    row.wins
  }

  function RowPlayer(row: MonthRow): Player {
    row.player
  }

  /** Player p's row for month mo: the win and loss tallies restricted to the
      records of that month. On logs pairing two different players they
      split the month's matches of p; a month without records would give
      the all-zero row. */
  function MonthRowOf(log: seq<Match>, mo: YearMonth, p: Player): (row: MonthRow)
    ensures row.player == p
    ensures WellFormed(log) ==> row.wins + row.losses == Played(InMonth(log, mo), p)
    ensures !Occurs(log, mo) ==> row == MonthRow(p, 0, 0)
  {
    var sub := InMonth(log, mo);
    assert WellFormed(log) ==> Tally(sub, p, Won) + Tally(sub, p, Lost) == Played(sub, p) by {
      if WellFormed(log) { PlayedIsWinsPlusLosses(sub, p); }
    }
    MonthRow(p, Tally(sub, p, Won), Tally(sub, p, Lost))
  }

  /** The rows of month mo in roster order, before sorting. */
  function MonthRows(log: seq<Match>, mo: YearMonth): (rows: seq<MonthRow>)
    ensures |rows| == |Roster|
    ensures forall k :: 0 <= k < |Roster| ==> rows[k].player == Roster[k]
  {
    seq(|Roster|, k requires 0 <= k < |Roster| => MonthRowOf(log, mo, Roster[k]))
  }

  /** t is month mo's table: every roster player once, with the row
      computed for that month, most wins first. */
  predicate IsMonthTable(t: MonthTable, log: seq<Match>, mo: YearMonth) {
    && t.month == mo
    && multiset(t.rows) == multiset(MonthRows(log, mo))
    && Descending(t.rows, RowWins)
    && (forall p: Player :: p in Players(t.rows, RowPlayer))
    && Distinct(Players(t.rows, RowPlayer))
  }

  /** The win and loss updates for record i when it belongs to the month. */
  lemma MonthStep(wins: map<Player, int>, losses: map<Player, int>, log: seq<Match>, i: nat, mo: YearMonth)
    requires i < |log|
    requires Holds(wins, InMonth(log[..i], mo), Won) && Holds(losses, InMonth(log[..i], mo), Lost)
    ensures var m := log[i];
            MonthOf(m) == mo && m.score1 > m.score2 ==>
              && Holds(wins[m.p1 := wins[m.p1] + 1], InMonth(log[..i + 1], mo), Won)
              && Holds(losses[m.p2 := losses[m.p2] + 1], InMonth(log[..i + 1], mo), Lost)
    ensures var m := log[i];
            MonthOf(m) == mo && m.score1 <= m.score2 ==>
              && Holds(wins[m.p2 := wins[m.p2] + 1], InMonth(log[..i + 1], mo), Won)
              && Holds(losses[m.p1 := losses[m.p1] + 1], InMonth(log[..i + 1], mo), Lost)
    ensures MonthOf(log[i]) != mo ==>
              && Holds(wins, InMonth(log[..i + 1], mo), Won)
              && Holds(losses, InMonth(log[..i + 1], mo), Lost)
  {
    var m := log[i];
    assert log[..i + 1] == log[..i] + [m];
    InMonthAppend(log[..i], m, mo);
    if MonthOf(m) == mo {
      CountStep(wins, InMonth(log[..i], mo), m, Won);
      CountStep(losses, InMonth(log[..i], mo), m, Lost);
    } else {
      assert InMonth(log[..i], mo) + [] == InMonth(log[..i], mo);
    }
  }

  /** One month's counters: a pass over the whole log that skips records
      of other months. */
  method CountMonth(log: seq<Match>, month: YearMonth) returns (winsMonth: map<Player, int>, lossesMonth: map<Player, int>)
    ensures Holds(winsMonth, InMonth(log, month), Won)
    ensures Holds(lossesMonth, InMonth(log, month), Lost)
  {
    winsMonth, lossesMonth := Zeros(), Zeros();
    ZerosHold(Won);
    ZerosHold(Lost);
    assert log[..0] == [];
    for i := 0 to |log|
      invariant Holds(winsMonth, InMonth(log[..i], month), Won)
      invariant Holds(lossesMonth, InMonth(log[..i], month), Lost)
    {
      var m := log[i];
      MonthStep(winsMonth, lossesMonth, log, i, month);
      if MonthOf(m) == month {
        if m.score1 > m.score2 {
          winsMonth := winsMonth[m.p1 := winsMonth[m.p1] + 1];
          lossesMonth := lossesMonth[m.p2 := lossesMonth[m.p2] + 1];
        } else {
          winsMonth := winsMonth[m.p2 := winsMonth[m.p2] + 1];
          lossesMonth := lossesMonth[m.p1 := lossesMonth[m.p1] + 1];
        }
      }
    }
    assert log[..|log|] == log;
  }

  /** One month's table: the month's counters, then one row per roster
      player, sorted by wins. */
  method MonthTableOf(log: seq<Match>, month: YearMonth) returns (t: MonthTable)
    ensures IsMonthTable(t, log, month)
  {
    var winsMonth, lossesMonth := CountMonth(log, month);
    var data: seq<MonthRow> := [];
    for k := 0 to |Roster|
      invariant data == MonthRows(log, month)[..k]
    {
      var p := Roster[k];
      data := data + [MonthRow(p, winsMonth[p], lossesMonth[p])];
    }
    assert data == MonthRows(log, month);
    var rows := SortDescending(data, RowWins);
    ReorderedRosterRows(rows, data, RowPlayer);
    t := MonthTable(month, rows);
  }

  /** For each month, in first-appearance order, that month's table. */
  method BuildMonthlyTables(log: seq<Match>) returns (tables: seq<MonthTable>)
    ensures |tables| == |Months(log)|
    ensures forall j :: 0 <= j < |tables| ==> IsMonthTable(tables[j], log, Months(log)[j])
  {
    var months := Months(log);
    tables := [];
    for j := 0 to |months|
      invariant |tables| == j
      invariant forall k :: 0 <= k < j ==> IsMonthTable(tables[k], log, months[k])
    {
      var t := MonthTableOf(log, months[j]);
      tables := tables + [t];
    }
  }
}
