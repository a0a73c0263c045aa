/** The facts the tracker stores: the fixed roster, calendar dates and the
    match records of the append-only log, and who wins a match. */
module Records {

  /** The three players the tracker knows; the roster never changes. */
  datatype Player = Gregi | Tomi | Brina

  /** The roster in its configured order, which is also the row order of every
      table before it is sorted. */
  const Roster: seq<Player> := [Gregi, Tomi, Brina]

  /** A calendar day, already split into its parts. */
  datatype Date = Date(year: int, month: int, day: int)

  /** A calendar month: the key the monthly tables are grouped by. */
  datatype YearMonth = YearMonth(year: int, month: int)

  /** One stored match: the two players, their scores and the day it was played. */
  datatype Match = Match(p1: Player, p2: Player, score1: int, score2: int, date: Date)

  /** The monthly period a match falls in. */
  function MonthOf(m: Match): YearMonth {
    YearMonth(m.date.year, m.date.month)
  }

  /** Two matches fall in the same monthly period exactly when their dates
      agree on year and month; the day never matters. */
  lemma SamePeriod(m: Match, n: Match)
    ensures MonthOf(m) == MonthOf(n) <==> m.date.year == n.date.year && m.date.month == n.date.month
    ensures MonthOf(m.(date := m.date.(day := n.date.day))) == MonthOf(m)
  {
  }

  /** No player occurs twice in the sequence. */
  predicate Distinct<T(==)>(s: seq<T>) {
    forall i, j :: 0 <= i < j < |s| ==> s[i] != s[j]
  }

  /** Every record pairs two different players, as the entry form guarantees. */
  predicate WellFormed(log: seq<Match>) {
    forall i :: 0 <= i < |log| ==> log[i].p1 != log[i].p2
  }

  /** The winner: the first player when their score is strictly higher, and
      the second player otherwise, equal scores included. */
  function Winner(m: Match): (w: Player)
    ensures w == m.p1 || w == m.p2
    ensures m.p1 != m.p2 ==> (w == m.p1 <==> m.score1 > m.score2)
  {
    if m.score1 > m.score2 then m.p1 else m.p2
  }

  /** The loser: always the participant who is not credited with the win. */
  function Loser(m: Match): (l: Player)
    ensures l == m.p1 || l == m.p2
    ensures m.p1 != m.p2 ==> l != Winner(m)
    ensures m.p1 != m.p2 ==> (l == m.p2 <==> m.score1 > m.score2)
  {
    if m.score1 > m.score2 then m.p2 else m.p1
  }

  /** The roster lists every player exactly once. */
  lemma RosterComplete(p: Player)
    ensures p in Roster
    ensures Distinct(Roster)
  {
    match p
    case Gregi => assert Roster[0] == p;
    case Tomi => assert Roster[1] == p;
    case Brina => assert Roster[2] == p;
  }
}
