/** `printAllInformation`: the report's header and the printer lambda that lays out
    one row per contestant. `Double.toString` is the parameter `show`. */
module Report {
  import opened Model
  import opened Text

  /** Place, full name, points, Codeforces login. */
  const Leading: seq<string> := ["Место", "ФИО", "Баллы", "Логин на codeforces"]

  /** School. */
  const SchoolLabel: string := "Школа"

  /** The header row: the four leading labels, one column per problem, then the school. */
  function Header(problemsList: seq<string>): (h: seq<string>)
    ensures |h| == 5 + |problemsList|
    ensures h[..4] == Leading && h[4..4 + |problemsList|] == problemsList && h[|h| - 1] == SchoolLabel
  {
    Leading + problemsList + [SchoolLabel]
  }

  function ShowAll(xs: seq<real>, show: real -> string): (r: seq<string>)
    ensures |r| == |xs| && forall k :: 0 <= k < |xs| ==> r[k] == show(xs[k])
  {
    seq(|xs|, k requires 0 <= k < |xs| => show(xs[k]))
  }

  /** The printer lambda. A row with no matched user is printed with `NullUser`. The
      rank cell is the decimal text of the rank, which reads back as the rank; one cell per problem sits between login and school. */
  function PrinterRow(row: MatchedRow, show: real -> string): (r: seq<string>)
    ensures |r| == 5 + |row.contestant.problems|
    ensures r[0] == IntToString(row.contestant.rank) && ParseInt(r[0]) == row.contestant.rank
    ensures r[1] == (if row.user.Some? then row.user.value.name else NoProfile)
    ensures r[2] == show(row.contestant.points) && r[3] == row.contestant.login
    ensures forall k :: 0 <= k < |row.contestant.problems| ==> r[4 + k] == show(row.contestant.problems[k])
    ensures r[|r| - 1] == (if row.user.Some? then row.user.value.school else NoProfile)
  {
    var user := row.user.GetOr(NullUser);
    var c := row.contestant;
    IntToStringRoundTrip(c.rank);
    var cells := ShowAll(c.problems, show);
    var r := [IntToString(c.rank), user.name, show(c.points), c.login] + cells + [user.school];
    assert forall k :: 0 <= k < |cells| ==> r[4 + k] == cells[k];
    r
  }

  /** The rows `printToCsv` writes, in order: the header, then one row per pair in list order. */
  function PrintAllInformation(pairs: seq<MatchedRow>, problemsList: seq<string>, show: real -> string)
    : (table: seq<seq<string>>)
    ensures |table| == 1 + |pairs| && table[0] == Header(problemsList)
    ensures forall i :: 0 <= i < |pairs| ==> table[i + 1] == PrinterRow(pairs[i], show)
  {
    var body := seq(|pairs|, i requires 0 <= i < |pairs| => PrinterRow(pairs[i], show));
    var table := [Header(problemsList)] + body;
    assert forall i :: 0 <= i < |pairs| ==> table[i + 1] == body[i];
    table
  }

  /** When a contestant has one score per problem, every column of its row lines up with
      the header: the problem columns hold that problem's score, the rest the labelled field. */
  lemma ColumnsAlign(row: MatchedRow, problemsList: seq<string>, show: real -> string)
    requires |row.contestant.problems| == |problemsList|
    ensures |PrinterRow(row, show)| == |Header(problemsList)|
    ensures forall k :: 0 <= k < |problemsList| ==>
              Header(problemsList)[4 + k] == problemsList[k] &&
              PrinterRow(row, show)[4 + k] == show(row.contestant.problems[k])
  {
    var h := Header(problemsList);
    forall k | 0 <= k < |problemsList| ensures h[4 + k] == problemsList[k] {
      assert h[4..4 + |problemsList|][k] == h[4 + k];
    }
  }

  /** Every row of the table has the same width as the header when all contestants
      report one score per listed problem. */
  lemma TableIsRectangular(pairs: seq<MatchedRow>, problemsList: seq<string>, show: real -> string)
    requires forall i :: 0 <= i < |pairs| ==> |pairs[i].contestant.problems| == |problemsList|
    ensures var table := PrintAllInformation(pairs, problemsList, show);
            forall i :: 0 <= i < |table| ==> |table[i]| == 5 + |problemsList|
  {
    var table := PrintAllInformation(pairs, problemsList, show);
    forall i | 0 <= i < |table| ensures |table[i]| == 5 + |problemsList| {
      if i > 0 {
        assert table[i] == PrinterRow(pairs[i - 1], show);
      }
    }
  }
}
