/** Reading the roster: the row decoder `Table.run` passes to `Sheets.getAllUsers`,
    and the loop in `getAllUsers` that keeps what it decodes. */
module Roster {
  import opened Wrappers
  import opened Model
  import opened Lists

  /** One spreadsheet row: its cells, left to right. */
  type Row = seq<string>

  /** The message `getAllUsers` throws when the range holds no rows. */
  const NoDataFound: string := "No data found."

  /** A row long enough to hold a login in its fourth cell. */
  predicate IsRosterRow(row: Row) {
    |row| >= 4
  }

  /** The decoder lambda: name in the first cell, school in the second, login in the
      fourth; a row with fewer than four cells yields nothing. */
  function DecodeRosterRow(row: Row): (r: Option<UserData>)
    ensures r.Some? <==> IsRosterRow(row)
  {
    if !IsRosterRow(row) then None
    else Some(UserData(login := row[3], name := row[0], school := row[1]))
  }

  /** Every roster record is read back from the row that lays it out as the sheet does;
      the third cell and any cells after the fourth are ignored. */
  lemma DecodeLayout(user: UserData, third: string, rest: seq<string>)
    ensures DecodeRosterRow([user.name, user.school, third, user.login] + rest) == Some(user)
  {
  }

  function Present(o: Option<UserData>): seq<UserData> {
    if o.Some? then [o.value] else []
  }

  /** The records `getUsedData` yields for `rows`, dropping the rows it maps to `null`. */
  function Collected(rows: seq<Row>, getUsedData: Row -> Option<UserData>): seq<UserData> {
    if rows == [] then []
    else Collected(rows[..|rows| - 1], getUsedData) + Present(getUsedData(rows[|rows| - 1]))
  }

  /** `getAllUsers` once the sheet has answered: `values` is the range's rows,
      `None` standing for a missing value list. */
  method GetAllUsers(values: Option<seq<Row>>, getUsedData: Row -> Option<UserData>)
    returns (r: Result<seq<UserData>, string>)
    ensures r.Failure? <==> values == None || values.value == []
    ensures r.Failure? ==> r.error == NoDataFound
    ensures r.Success? ==> r.value == Collected(values.value, getUsedData)
  {
    if values == None || |values.value| == 0 {
      return Failure(NoDataFound);
    }
    var rows := values.value;
    var result: seq<UserData> := [];
    for i := 0 to |rows|
      invariant result == Collected(rows[..i], getUsedData)
    {
      var userData := getUsedData(rows[i]);
      assert rows[..i + 1][..i] == rows[..i];
      if userData != None {
        result := result + [userData.value];
      }
    }
    assert rows[..|rows|] == rows;
    return Success(result);
  }

  /** Collecting distributes over concatenation: records come out in row order. */
  lemma {:induction false} CollectedAppend(a: seq<Row>, b: seq<Row>, getUsedData: Row -> Option<UserData>)
    ensures Collected(a + b, getUsedData) == Collected(a, getUsedData) + Collected(b, getUsedData)
    decreases |b|
  {
    if b == [] {
      assert a + b == a;
    } else {
      var last := b[|b| - 1];
      assert (a + b)[..|a + b| - 1] == a + b[..|b| - 1];
      CollectedAppend(a, b[..|b| - 1], getUsedData);
    }
  }

  /** A record is collected exactly when some row decodes to it. */
  lemma {:induction false} CollectedMembers(rows: seq<Row>, getUsedData: Row -> Option<UserData>, user: UserData)
    ensures user in Collected(rows, getUsedData) <==> exists i :: 0 <= i < |rows| && getUsedData(rows[i]) == Some(user)
  {
    if rows != [] {
      var init := rows[..|rows| - 1];
      CollectedMembers(init, getUsedData, user);
      if exists i :: 0 <= i < |rows| && getUsedData(rows[i]) == Some(user) {
        var i :| 0 <= i < |rows| && getUsedData(rows[i]) == Some(user);
        if i < |rows| - 1 {
          assert init[i] == rows[i];
        }
      }
      if exists i :: 0 <= i < |init| && getUsedData(init[i]) == Some(user) {
        var i :| 0 <= i < |init| && getUsedData(init[i]) == Some(user);
        assert rows[i] == init[i];
      }
    }
  }

  /** The roster is the rows with at least four cells, in sheet order, each read as
      (login = fourth cell, name = first cell, school = second cell). */
  lemma {:induction false} RosterFromWellFormedRows(rows: seq<Row>)
    ensures var w := Filter(rows, IsRosterRow);
            var users := Collected(rows, DecodeRosterRow);
            |users| == |w| &&
            forall i :: 0 <= i < |w| ==> users[i] == UserData(w[i][3], w[i][0], w[i][1])
  {
    if rows != [] {
      var w := Filter(rows, IsRosterRow);
      var tail := Filter(rows[1..], IsRosterRow);
      RosterFromWellFormedRows(rows[1..]);
      assert rows == [rows[0]] + rows[1..];
      CollectedAppend([rows[0]], rows[1..], DecodeRosterRow);
      assert [rows[0]][..0] == [];
      assert Collected([rows[0]], DecodeRosterRow) == Present(DecodeRosterRow(rows[0]));
    }
  }
}
