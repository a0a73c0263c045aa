/** Entering a match: the typed score text is split on '-', each half read as
    a decimal number, the pair checked against the table-tennis rule, and an
    accepted match appended to the log. */
module ScoreEntry {
  import opened Records

  datatype Option<T> = None | Some(value: T)

  /** Number of occurrences of c in s. */
  function Occurrences(s: string, c: char): nat {
    if s == [] then 0 else Occurrences(s[..|s| - 1], c) + (if s[|s| - 1] == c then 1 else 0)
  }

  /** The pieces of s between occurrences of sep, empty pieces included, as
      Python's str.split(sep) returns them. */
  function Split(s: string, sep: char): (parts: seq<string>)
    ensures |parts| == Occurrences(s, sep) + 1
    ensures forall i :: 0 <= i < |parts| ==> sep !in parts[i]
  {
    if s == [] then [""]
    else
      var init := Split(s[..|s| - 1], sep);
      if s[|s| - 1] == sep then init + [""]
      else init[..|init| - 1] + [init[|init| - 1] + [s[|s| - 1]]]
  }

  /** The pieces put back together with sep between neighbours. */
  function Join(parts: seq<string>, sep: char): string
    requires parts != []
  {
    if |parts| == 1 then parts[0] else Join(parts[..|parts| - 1], sep) + [sep] + parts[|parts| - 1]
  }

  /** Extending the last piece extends the joined text. */
  lemma JoinExtendLast(parts: seq<string>, sep: char, t: string)
    requires parts != []
    ensures Join(parts[..|parts| - 1] + [parts[|parts| - 1] + t], sep) == Join(parts, sep) + t
  {
    var q := parts[..|parts| - 1] + [parts[|parts| - 1] + t];
    assert q[..|q| - 1] == parts[..|parts| - 1];
  }

  /** One more character either starts a new piece or extends the last one. */
  lemma SplitSnoc(init: string, c: char, sep: char)
    ensures var ps := Split(init, sep);
            Split(init + [c], sep) == if c == sep then ps + [""] else ps[..|ps| - 1] + [ps[|ps| - 1] + [c]]
  {
    assert (init + [c])[..|init|] == init;
  }

  /** An empty last piece adds only the separator to the joined text. */
  lemma JoinAppendEmpty(parts: seq<string>, sep: char)
    requires parts != []
    ensures Join(parts + [""], sep) == Join(parts, sep) + [sep]
  {
    var q := parts + [""];
    assert q[..|q| - 1] == parts;
  }

  /** Splitting loses nothing: joining the pieces with sep gives back the text. */
  lemma {:induction false} SplitJoin(s: string, sep: char)
    ensures Join(Split(s, sep), sep) == s
  {
    if s != [] {
      var init, c := s[..|s| - 1], s[|s| - 1];
      assert s == init + [c];
      SplitJoin(init, sep);
      SplitSnoc(init, c, sep);
      if c == sep {
        JoinAppendEmpty(Split(init, sep), sep);
      } else {
        JoinExtendLast(Split(init, sep), sep, [c]);
      }
    }
  }

  predicate IsDigit(c: char) {
    '0' <= c <= '9'
  }

  predicate AllDigits(s: string) {
    forall i :: 0 <= i < |s| ==> IsDigit(s[i])
  }

  /** The value of a string of decimal digits, most significant first. */
  function DigitsValue(s: string): nat
    requires AllDigits(s)
  {
    if s == [] then 0 else 10 * DigitsValue(s[..|s| - 1]) + ((s[|s| - 1] as int) - ('0' as int))
  }

  /** The most digits CPython's int() converts from text; a longer run of
      digits raises, so the form reports it as malformed. */
  const MaxDigits := 4300

  /** Reads a non-negative decimal number; anything but a non-empty run of
      at most MaxDigits digits is rejected, as int() raises on it. */
  function ParseNat(s: string): (r: Option<nat>)
    ensures r.Some? <==> s != [] && AllDigits(s) && |s| <= MaxDigits
  {
    if s != [] && AllDigits(s) && |s| <= MaxDigits then Some(DigitsValue(s)) else None
  }

  /** The decimal spelling of n, without leading zeros. */
  function ShowNat(n: nat): (s: string)
    ensures s != [] && AllDigits(s)
  {
    var last := ['0' + ((n % 10) as char)];
    if n < 10 then last else ShowNat(n / 10) + last
  }

  /** The text "s1-s2" the entry field asks for. */
  function ShowScore(s1: nat, s2: nat): string {
    ShowNat(s1) + "-" + ShowNat(s2)
  }

  /** Reads "s1-s2": exactly one '-' splitting the text into two decimal
      numbers. A leading minus sign only adds an empty piece, so negative
      numbers can never come out. */
  function ParseScore(input: string): (r: Option<(nat, nat)>)
    ensures r.Some? ==> Occurrences(input, '-') == 1
  {
    var parts := Split(input, '-');
    if |parts| != 2 then None
    else
      match (ParseNat(parts[0]), ParseNat(parts[1]))
      case (Some(s1), Some(s2)) => Some((s1, s2))
      case _ => None
  }

  /** The outcome of submitting the entry form: saved, or one of the three
      messages the form shows instead. */
  datatype Outcome =
    | Saved(score1: nat, score2: nat)
    | TooLowOrClose   // nobody reached 11, or the margin is below 2
    | NotPositive     // a score is negative
    | BadFormat       // the text is not two numbers around one '-'

  function Abs(x: int): nat {
    if x < 0 then -x else x
  }

  function Max(a: int, b: int): int {
    if a < b then b else a
  }

  /** The score rule, checked in the source's order: first the threshold and
      margin, then the sign. A score is accepted exactly when someone reached
      11, the margin is at least 2 and neither score is negative; there is no
      upper bound, so overtime games are accepted. */
  function Check(s1: int, s2: int): (r: Outcome)
    ensures r.Saved? <==> Max(s1, s2) >= 11 && Abs(s1 - s2) >= 2 && s1 >= 0 && s2 >= 0
    ensures r == TooLowOrClose <==> Max(s1, s2) < 11 || Abs(s1 - s2) < 2
    ensures r.Saved? ==> r.score1 == s1 && r.score2 == s2
    ensures r != BadFormat
  {
    if (s1 < 11 && s2 < 11) || Abs(s1 - s2) < 2 then TooLowOrClose
    else if s1 < 0 || s2 < 0 then NotPositive
    else Saved(s1, s2)
  }

  /** The whole form check: parse, then apply the rule. */
  function Judge(input: string): (r: Outcome)
    ensures r != NotPositive
    ensures r == BadFormat <==> ParseScore(input).None?
    ensures r.Saved? ==> (r.score1, r.score2) == ParseScore(input).value
    ensures r.Saved? <==> ParseScore(input).Some? &&
                          var (s1, s2) := ParseScore(input).value; Max(s1, s2) >= 11 && Abs(s1 - s2) >= 2
  {
    match ParseScore(input)
    case None => BadFormat
    case Some((s1, s2)) => Check(s1, s2)
  }

  lemma {:induction false} ShowNatValue(n: nat)
    ensures DigitsValue(ShowNat(n)) == n
  {
    var last := ['0' + ((n % 10) as char)];
    if n >= 10 {
      ShowNatValue(n / 10);
      var s := ShowNat(n / 10) + last;
      assert s[..|s| - 1] == ShowNat(n / 10);
    }
  }

  /** Reading back a printed number within int()'s digit limit gives the number. */
  lemma ParseShowNat(n: nat)
    requires |ShowNat(n)| <= MaxDigits
    ensures ParseNat(ShowNat(n)) == Some(n)
  {
    ShowNatValue(n);
  }

  /** Digits without a leading zero have a positive value. */
  lemma {:induction false} LeadingDigitPositive(s: string)
    requires s != [] && AllDigits(s) && s[0] != '0'
    ensures DigitsValue(s) >= 1
  {
    if |s| > 1 {
      LeadingDigitPositive(s[..|s| - 1]);
    }
  }

  /** The other direction: a number's digits without a leading zero are
      exactly how the number is printed. */
  lemma {:induction false} ShowParseNat(s: string)
    requires s != [] && AllDigits(s) && s[0] != '0' && |s| <= MaxDigits
    ensures ParseNat(s).Some? && ShowNat(ParseNat(s).value) == s
  {
    var n := DigitsValue(s);
    var d := (s[|s| - 1] as int) - ('0' as int);
    if |s| == 1 {
      assert s[..|s| - 1] == [] && s[|s| - 1] == s[0] && IsDigit(s[0]);
      assert DigitsValue(s[..|s| - 1]) == 0;
      assert n == 10 * DigitsValue(s[..|s| - 1]) + d;
      assert 1 <= d <= 9;
      assert ShowNat(n) == ['0' + (d as char)];
    } else {
      var init := s[..|s| - 1];
      LeadingDigitPositive(init);
      ShowParseNat(init);
      assert n == 10 * DigitsValue(init) + d;
      assert n / 10 == DigitsValue(init) && n % 10 == d;
      assert s == init + [s[|s| - 1]];
    }
  }

  /** A text without sep is a single piece. */
  lemma {:induction false} SplitNoSep(s: string, sep: char)
    requires sep !in s
    ensures Split(s, sep) == [s]
  {
    if s != [] {
      SplitNoSep(s[..|s| - 1], sep);
      assert s[..|s| - 1] + [s[|s| - 1]] == s;
    }
  }

  /** Appending text without sep extends the last piece. */
  lemma {:induction false} SplitExtend(s: string, t: string, sep: char)
    requires sep !in t
    ensures var parts := Split(s, sep);
            Split(s + t, sep) == parts[..|parts| - 1] + [parts[|parts| - 1] + t]
  {
    var parts := Split(s, sep);
    if t == [] {
      assert s + t == s;
      assert parts[|parts| - 1] + t == parts[|parts| - 1];
      assert parts[..|parts| - 1] + [parts[|parts| - 1]] == parts;
    } else {
      var t', c := t[..|t| - 1], t[|t| - 1];
      assert sep !in t' by { assert forall k :: 0 <= k < |t'| ==> t'[k] == t[k]; }
      SplitExtend(s, t', sep);
      var prefix, last := parts[..|parts| - 1], parts[|parts| - 1];
      var init := Split(s + t', sep);
      assert init == prefix + [last + t'];
      assert (s + t)[..|s + t| - 1] == s + t';
      assert (s + t)[|s + t| - 1] == c && c != sep;
      assert Split(s + t, sep) == init[..|init| - 1] + [init[|init| - 1] + [c]];
      assert init[..|init| - 1] == prefix;
      assert last + t' + [c] == last + t;
    }
  }

  /** Splitting a text that has one sep between two sep-free pieces. */
  lemma SplitPair(a: string, b: string, sep: char)
    requires sep !in a && sep !in b
    ensures Split(a + [sep] + b, sep) == [a, b]
  {
    SplitNoSep(a, sep);
    assert (a + [sep])[..|a|] == a;
    assert Split(a + [sep], sep) == [a, ""];
    SplitExtend(a + [sep], b, sep);
    assert [a, ""][..1] == [a];
    assert "" + b == b;
  }

  /** A text with one '-' between two pieces is read exactly when both
      pieces read as numbers, and then as those numbers. */
  lemma ParsePieces(x: string, y: string)
    requires '-' !in x && '-' !in y
    ensures ParseScore(x + "-" + y) ==
            if ParseNat(x).Some? && ParseNat(y).Some? then Some((ParseNat(x).value, ParseNat(y).value)) else None
  {
    SplitPair(x, y, '-');
    assert x + "-" + y == x + ['-'] + y;
  }

  /** Conversely, every text that is read is two pieces around one '-', each
      read as a number, and the pair is their values. */
  lemma ParseScoreShape(input: string)
    ensures ParseScore(input).Some? ==>
              exists x, y :: && '-' !in x && '-' !in y && input == x + "-" + y
                             && ParseNat(x).Some? && ParseNat(y).Some?
                             && ParseScore(input).value == (ParseNat(x).value, ParseNat(y).value)
  {
    if ParseScore(input).Some? {
      var parts := Split(input, '-');
      SplitJoin(input, '-');
      assert parts[..1] == [parts[0]];
      assert input == parts[0] + "-" + parts[1];
      assert '-' !in parts[0] && '-' !in parts[1];
    }
  }

  /** The format round trip: the text "s1-s2" reads back as the pair. */
  lemma ParseShowScore(s1: nat, s2: nat)
    requires |ShowNat(s1)| <= MaxDigits && |ShowNat(s2)| <= MaxDigits
    ensures ParseScore(ShowScore(s1, s2)) == Some((s1, s2))
  {
    var a, b := ShowNat(s1), ShowNat(s2);
    assert '-' !in a && '-' !in b by {
      assert forall i :: 0 <= i < |a| ==> IsDigit(a[i]);
      assert forall i :: 0 <= i < |b| ==> IsDigit(b[i]);
    }
    SplitPair(a, b, '-');
    assert ShowScore(s1, s2) == a + ['-'] + b;
    ParseShowNat(s1);
    ParseShowNat(s2);
  }

  /** The boundary cases of the rule: a bare 11 or a one-point margin is not
      enough, overtime wins by two are. */
  lemma RuleExamples()
    ensures Check(11, 10) == TooLowOrClose
    ensures Check(10, 8) == TooLowOrClose
    ensures Check(11, 9) == Saved(11, 9)
    ensures Check(15, 13) == Saved(15, 13)
    ensures Check(21, 19) == Saved(21, 19)
    ensures Check(9, 11) == Saved(9, 11)
  {
  }

  /** A leading zero is read as int() reads it. */
  lemma LeadingZeroForm()
    ensures Judge("011-9") == Saved(11, 9)
  {
    assert "011"[..2] == "01" && "01"[..1] == "0" && "0"[..0] == [];
    assert AllDigits("011") && DigitsValue("011") == 11;
    assert "9"[..0] == [] && DigitsValue("9") == 9;
    assert "011" + "-" + "9" == "011-9";
    ParsePieces("011", "9");
  }

  /** The form's documented examples are accepted. */
  lemma AcceptedForms()
    ensures Judge("11-9") == Saved(11, 9)
    ensures Judge("15-13") == Saved(15, 13)
  {
    assert ShowNat(11) == "11" && ShowNat(9) == "9";
    assert ShowNat(15) == "15" && ShowNat(13) == "13";
    ParseShowScore(11, 9);
    assert ShowScore(11, 9) == "11-9";
    ParseShowScore(15, 13);
    assert ShowScore(15, 13) == "15-13";
  }

  /** With one '-', a missing second score or a letter still makes the
      text malformed. */
  lemma BadPieceForms()
    ensures Judge("11-") == BadFormat
    ensures Judge("11-x") == BadFormat
  {
    assert "11" + "-" + "" == "11-" && "11" + "-" + "x" == "11-x";
    ParsePieces("11", "");
    ParsePieces("11", "x");
    assert !AllDigits("x");
  }

  /** A one-point margin is refused by the rule; a minus sign in front of a
      score, or a missing '-', makes the text malformed. */
  lemma RejectedForms()
    ensures Judge("11-10") == TooLowOrClose
    ensures Judge("-11-9") == BadFormat
    ensures Judge("11") == BadFormat
  {
    assert ShowNat(11) == "11" && ShowNat(10) == "10";
    ParseShowScore(11, 10);
    assert ShowScore(11, 10) == "11-10";
    assert "-11-9"[..4] == "-11-" && "-11-"[..3] == "-11" && "-11"[..2] == "-1" && "-1"[..1] == "-";
    assert Occurrences("-", '-') == 1;
    assert Occurrences("-11-9", '-') == 2;
    assert "11"[..1] == "1";
    assert Occurrences("11", '-') == 0;
  }

  /** The append-only match log of the tracker. */
  class MatchLog {
    var matches: seq<Match>

    /** The log as loaded from storage. */
    constructor (stored: seq<Match>)
      ensures matches == stored
    {
      matches := stored;
    }

    /** Submits the entry form: the two players picked (the second list
        leaves out the first player), the score text and the current day.
        Exactly one record is appended when the score is accepted; otherwise
        the log is left as it was. */
    method Submit(p1: Player, p2: Player, input: string, today: Date) returns (outcome: Outcome)
      requires p1 != p2
      modifies this
      ensures outcome == Judge(input)
      ensures outcome.Saved? ==> matches == old(matches) + [Match(p1, p2, outcome.score1, outcome.score2, today)]
      ensures !outcome.Saved? ==> matches == old(matches)
      ensures WellFormed(old(matches)) ==> WellFormed(matches)
    {
      var parsed := ParseScore(input);
      if parsed.None? {
        return BadFormat;
      }
      var (s1, s2) := parsed.value;
      var diff := Abs(s1 - s2);
      if (s1 < 11 && s2 < 11) || diff < 2 {
        outcome := TooLowOrClose;
      } else if s1 < 0 || s2 < 0 {
        outcome := NotPositive;
      } else {
        matches := matches + [Match(p1, p2, s1, s2, today)];
        outcome := Saved(s1, s2);
      }
    }
  }
}
