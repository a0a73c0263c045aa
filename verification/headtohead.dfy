/** The head-to-head matrix: for every ordered pair of different players,
    how often the first beat the second and lost to the second. */
module HeadToHead {
  import opened Records
  import opened Tallies

  /** One cell: wins and losses of the row player against the column player. */
  datatype WinLoss = WinLoss(w: int, l: int)

  /** Player p's record against opponent o over the log. */
  function Versus(log: seq<Match>, p: Player, o: Player): WinLoss {
    WinLoss(Tally(log, p, WonAgainst(o)), Tally(log, p, LostTo(o)))
  }

  /** The players of ps other than p, in the order of ps. */
  function Without(ps: seq<Player>, p: Player): (os: seq<Player>)
    ensures forall o: Player :: o in os <==> o in ps && o != p
    ensures Distinct(ps) ==> Distinct(os)
  {
    if ps == [] then []
    else
      var rest := Without(ps[..|ps| - 1], p);
      var last := ps[|ps| - 1];
      assert forall o :: o in ps <==> o in ps[..|ps| - 1] || o == last;
      assert Distinct(ps) ==> Distinct(ps[..|ps| - 1]) && last !in ps[..|ps| - 1];
      if last == p then rest else rest + [last]
  }

  lemma AllInRoster()
    ensures forall p: Player :: p in Roster
  {
    forall p: Player ensures p in Roster { RosterComplete(p); }
  }

  /** The other roster players, in roster order: the columns of p's row. */
  function Opponents(p: Player): (os: seq<Player>)
    ensures forall o: Player :: o in os <==> o != p
    ensures Distinct(os)
  {
    AllInRoster();
    RosterComplete(p);
    Without(Roster, p)
  }

  /** Records against each player in os, added up. */
  function SumVersus(log: seq<Match>, p: Player, os: seq<Player>): WinLoss {
    if os == [] then WinLoss(0, 0)
    else
      var rest, last := SumVersus(log, p, os[..|os| - 1]), Versus(log, p, os[|os| - 1]);
      WinLoss(rest.w + last.w, rest.l + last.l)
  }

  /** Every player has a row, and each row has a cell for exactly the other
      players. */
  predicate HasShape(h2h: map<Player, map<Player, WinLoss>>) {
    forall a: Player :: a in h2h && (forall b: Player :: b in h2h[a] <==> b != a)
  }

  /** Each cell holds the row player's record against the column player. */
  predicate CellsHold(h2h: map<Player, map<Player, WinLoss>>, log: seq<Match>)
    requires HasShape(h2h)
  {
    forall a: Player, b: Player :: a != b ==> h2h[a][b] == Versus(log, a, b)
  }

  /** What a match between a and b is from the other side: a win of a over b
      is a loss of b to a, match by match and so over the whole log. */
  lemma {:induction false} Symmetric(log: seq<Match>, a: Player, b: Player)
    ensures Tally(log, a, WonAgainst(b)) == Tally(log, b, LostTo(a))
    ensures Tally(log, a, LostTo(b)) == Tally(log, b, WonAgainst(a))
  {
    if log != [] {
      Symmetric(log[..|log| - 1], a, b);
    }
  }

  lemma {:induction false} SumVersusAppend(log: seq<Match>, m: Match, p: Player, os: seq<Player>)
    ensures SumVersus(log + [m], p, os).w == SumVersus(log, p, os).w + CreditSum2(m, p, os, true)
    ensures SumVersus(log + [m], p, os).l == SumVersus(log, p, os).l + CreditSum2(m, p, os, false)
  {
    if os != [] {
      var o := os[|os| - 1];
      SumVersusAppend(log, m, p, os[..|os| - 1]);
      TallyAppend(log, m, p, WonAgainst(o));
      TallyAppend(log, m, p, LostTo(o));
    }
  }

  /** What one match adds to p's wins (won) or losses (not won) against the
      players in os. */
  function CreditSum2(m: Match, p: Player, os: seq<Player>, won: bool): int {
    if os == [] then 0
    else
      var o := os[|os| - 1];
      CreditSum2(m, p, os[..|os| - 1], won) + Credit(m, p, if won then WonAgainst(o) else LostTo(o))
  }

  /** Among distinct opponents, a match credits p at most at its one other
      participant. */
  lemma {:induction false} CreditSum2Single(m: Match, p: Player, os: seq<Player>, won: bool)
    requires Distinct(os)
    ensures CreditSum2(m, p, os, won) ==
            if Loser(m) in os && won && Winner(m) == p then 1
            else if Winner(m) in os && !won && Loser(m) == p then 1
            else 0
  {
    if os != [] {
      var init, o := os[..|os| - 1], os[|os| - 1];
      assert Distinct(init);
      assert o !in init;
      assert forall x :: x in os <==> x in init || x == o;
      CreditSum2Single(m, p, init, won);
    }
  }

  /** Adding up a player's row of the matrix gives that player's wins and
      losses from the leaderboard. */
  lemma {:induction false} RowSumsMatchTallies(log: seq<Match>, p: Player)
    requires WellFormed(log)
    ensures SumVersus(log, p, Opponents(p)) == WinLoss(Tally(log, p, Won), Tally(log, p, Lost))
  {
    var os := Opponents(p);
    if log == [] {
      SumVersusEmpty(p, os);
    } else {
      var init, m := log[..|log| - 1], log[|log| - 1];
      assert log == init + [m];
      assert WellFormed(init) by {
        forall i | 0 <= i < |init| ensures init[i].p1 != init[i].p2 { assert init[i] == log[i]; }
      }
      assert m.p1 != m.p2 by { assert m == log[|log| - 1]; }
      RowSumsMatchTallies(init, p);
      SumVersusAppend(init, m, p, os);
      CreditSum2Single(m, p, os, true);
      CreditSum2Single(m, p, os, false);
      TallyAppend(init, m, p, Won);
      TallyAppend(init, m, p, Lost);
    }
  }

  lemma {:induction false} SumVersusEmpty(p: Player, os: seq<Player>)
    ensures SumVersus([], p, os) == WinLoss(0, 0)
  {
    if os != [] {
      SumVersusEmpty(p, os[..|os| - 1]);
    }
  }

  /** Builds the matrix in one pass over the log. The source indexes the
      cell of the two players of every record, so each record must pair two
      different players. The result has no diagonal, and each cell's wins are
      the losses of the mirrored cell. */
  method BuildHeadToHead(log: seq<Match>) returns (h2h: map<Player, map<Player, WinLoss>>)
    requires WellFormed(log)
    ensures HasShape(h2h) && CellsHold(h2h, log)
    ensures forall a: Player, b: Player :: a != b ==> h2h[a][b].w == h2h[b][a].l
  {
    h2h := map p | p in Roster :: map o | o in Roster && o != p :: WinLoss(0, 0);
    EmptyMatrix(h2h);
    for i := 0 to |log|
      invariant HasShape(h2h) && CellsHold(h2h, log[..i])
    {
      var m := log[i];
      StepMatrix(h2h, log, i);
      ghost var before := h2h;
      if m.score1 > m.score2 {
        h2h := h2h[m.p1 := h2h[m.p1][m.p2 := h2h[m.p1][m.p2].(w := h2h[m.p1][m.p2].w + 1)]];
        h2h := h2h[m.p2 := h2h[m.p2][m.p1 := h2h[m.p2][m.p1].(l := h2h[m.p2][m.p1].l + 1)]];
        assert h2h == Recorded(before, m.p1, m.p2);
      } else {
        h2h := h2h[m.p2 := h2h[m.p2][m.p1 := h2h[m.p2][m.p1].(w := h2h[m.p2][m.p1].w + 1)]];
        h2h := h2h[m.p1 := h2h[m.p1][m.p2 := h2h[m.p1][m.p2].(l := h2h[m.p1][m.p2].l + 1)]];
        assert h2h == Recorded(before, m.p2, m.p1);
      }
    }
    assert log[..|log|] == log;
    forall a: Player, b: Player | a != b ensures h2h[a][b].w == h2h[b][a].l {
      Symmetric(log, a, b);
    }
  }

  /** The source's initial matrix: every ordered pair of different players
      at 0-0, which is the matrix of the empty log. */
  lemma EmptyMatrix(h2h: map<Player, map<Player, WinLoss>>)
    requires h2h == map p | p in Roster :: map o | o in Roster && o != p :: WinLoss(0, 0)
    ensures HasShape(h2h) && CellsHold(h2h, [])
  {
    AllInRoster();
  }

  /** The matrix after crediting a win of win over lose: one more win in the
      winner's cell against the loser, one more loss in the loser's cell
      against the winner. Every row keeps its columns. */
  function Recorded(h2h: map<Player, map<Player, WinLoss>>, win: Player, lose: Player): (h: map<Player, map<Player, WinLoss>>)
    requires HasShape(h2h) && win != lose
    ensures HasShape(h)
  {
    var h1 := h2h[win := h2h[win][lose := h2h[win][lose].(w := h2h[win][lose].w + 1)]];
    var h := h1[lose := h1[lose][win := h1[lose][win].(l := h1[lose][win].l + 1)]];
    assert forall a: Player :: a in h && h[a].Keys == h2h[a].Keys;
    h
  }

  /** Recording a win of win over lose changes exactly two cells. */
  lemma RecordedCell(h2h: map<Player, map<Player, WinLoss>>, win: Player, lose: Player, a: Player, b: Player)
    requires HasShape(h2h) && win != lose && a != b
    ensures var c := h2h[a][b];
            Recorded(h2h, win, lose)[a][b] ==
              if a == win && b == lose then c.(w := c.w + 1)
              else if a == lose && b == win then c.(l := c.l + 1)
              else c
  {
  }

  /** One cell after recording match i. */
  lemma StepCell(h2h: map<Player, map<Player, WinLoss>>, log: seq<Match>, i: nat, a: Player, b: Player)
    requires i < |log| && log[i].p1 != log[i].p2 && a != b
    requires HasShape(h2h) && h2h[a][b] == Versus(log[..i], a, b)
    ensures Recorded(h2h, Winner(log[i]), Loser(log[i]))[a][b] == Versus(log[..i + 1], a, b)
  {
    var m := log[i];
    assert log[..i + 1] == log[..i] + [m];
    RecordedCell(h2h, Winner(m), Loser(m), a, b);
    TallyAppend(log[..i], m, a, WonAgainst(b));
    TallyAppend(log[..i], m, a, LostTo(b));
  }

  /** One loop iteration keeps the matrix in step with the log prefix. */
  lemma StepMatrix(h2h: map<Player, map<Player, WinLoss>>, log: seq<Match>, i: nat)
    requires i < |log| && log[i].p1 != log[i].p2
    requires HasShape(h2h) && CellsHold(h2h, log[..i])
    ensures var h := Recorded(h2h, Winner(log[i]), Loser(log[i]));
            HasShape(h) && CellsHold(h, log[..i + 1])
  {
    forall a: Player, b: Player | a != b
      ensures Recorded(h2h, Winner(log[i]), Loser(log[i]))[a][b] == Versus(log[..i + 1], a, b)
    {
      assert h2h[a][b] == Versus(log[..i], a, b);
      StepCell(h2h, log, i, a, b);
    }
  }
}
