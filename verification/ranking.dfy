/** Ordering table rows by a numeric column, largest first, and what such a
    reordering keeps: every roster player's row, once. */
module Ranking {
  import opened Records

  /** Rows are in non-increasing order of key. */
  predicate Descending<T>(rows: seq<T>, key: T -> int) {
    forall i, j :: 0 <= i < j < |rows| ==> key(rows[i]) >= key(rows[j])
  }

  /** A row no smaller than the first of a descending sequence can go in front. */
  lemma ConsDescending<T>(h: T, rest: seq<T>, key: T -> int)
    requires Descending(rest, key)
    requires rest == [] || key(h) >= key(rest[0])
    ensures Descending([h] + rest, key)
  {
    var r := [h] + rest;
    forall i, j | 0 <= i < j < |r| ensures key(r[i]) >= key(r[j]) {
      if i > 0 {
        assert r[i] == rest[i - 1] && r[j] == rest[j - 1];
      } else {
        assert r[j] == rest[j - 1];
      }
    }
  }

  /** Puts x in front of the first row whose key is smaller. */
  function Insert<T(==)>(x: T, rows: seq<T>, key: T -> int): (r: seq<T>)
    requires Descending(rows, key)
    ensures multiset(r) == multiset(rows) + multiset{x}
    ensures Descending(r, key)
    ensures |r| == |rows| + 1 && (r[0] == x || (rows != [] && r[0] == rows[0]))
  {
    if rows == [] || key(rows[0]) < key(x) then
      ConsDescending(x, rows, key);
      [x] + rows
    else
      var rest := Insert(x, rows[1..], key);
      assert rows == [rows[0]] + rows[1..];
      assert key(rows[0]) >= key(rest[0]);
      ConsDescending(rows[0], rest, key);
      assert multiset([rows[0]] + rest) == multiset{rows[0]} + multiset(rest);
      [rows[0]] + rest
  }

  /** Sorts rows by key, largest first. Rows with equal keys may come out in
      any order: the table library's default sort does not promise to keep
      them in input order. */
  function SortDescending<T(==)>(rows: seq<T>, key: T -> int): (r: seq<T>)
    ensures multiset(r) == multiset(rows)
    ensures Descending(r, key)
  {
    if rows == [] then []
    else
      assert rows == [rows[0]] + rows[1..];
      Insert(rows[0], SortDescending(rows[1..], key), key)
  }

  lemma {:induction false} DistinctCountAtMostOne<T>(s: seq<T>, x: T)
    requires Distinct(s)
    ensures multiset(s)[x] <= 1
  {
    if s != [] {
      assert s == [s[0]] + s[1..];
      DistinctCountAtMostOne(s[1..], x);
      assert s[0] == x ==> x !in s[1..];
    }
  }

  lemma TwiceCountsTwice<T>(s: seq<T>, i: nat, j: nat)
    requires i < j < |s| && s[i] == s[j]
    ensures multiset(s)[s[i]] >= 2
  {
    assert s == s[..j] + [s[j]] + s[j + 1..];
    assert s[i] in s[..j];
  }

  /** The player column of a table. */
  function Players<T>(rows: seq<T>, who: T -> Player): (ps: seq<Player>)
    ensures |ps| == |rows|
  {
    seq(|rows|, i requires 0 <= i < |rows| => who(rows[i]))
  }

  /** Any reordering of the per-player rows built in roster order holds each
      roster player exactly once, each with the row built for it. */
  lemma {:induction false} ReorderedRosterRows<T>(rows: seq<T>, built: seq<T>, who: T -> Player)
    requires |built| == |Roster|
    requires forall k :: 0 <= k < |built| ==> who(built[k]) == Roster[k]
    requires multiset(rows) == multiset(built)
    ensures |rows| == |Roster|
    ensures forall i :: 0 <= i < |rows| ==> rows[i] in built
    ensures forall p: Player :: p in Players(rows, who)
    ensures Distinct(Players(rows, who))
  {
    assert |rows| == |multiset(rows)| == |multiset(built)| == |built|;
    RosterComplete(Gregi);
    forall i | 0 <= i < |rows| ensures rows[i] in built {
      assert rows[i] in multiset(rows);
    }
    var ps := Players(rows, who);
    forall p: Player ensures p in ps {
      RosterComplete(p);
      var k :| 0 <= k < |Roster| && Roster[k] == p;
      assert built[k] in multiset(rows);
      var i :| 0 <= i < |rows| && rows[i] == built[k];
      assert ps[i] == p;
    }
    assert Distinct(built) by {
      forall a, b | 0 <= a < b < |built| ensures built[a] != built[b] {
        assert who(built[a]) == Roster[a] != Roster[b] == who(built[b]);
      }
    }
    forall i, j | 0 <= i < j < |ps| ensures ps[i] != ps[j] {
      if who(rows[i]) == who(rows[j]) {
        var a :| 0 <= a < |built| && built[a] == rows[i];
        var b :| 0 <= b < |built| && built[b] == rows[j];
        assert Roster[a] == Roster[b];
        assert a == b;
        TwiceCountsTwice(rows, i, j);
        DistinctCountAtMostOne(built, rows[i]);
        assert false;
      }
    }
  }
}
