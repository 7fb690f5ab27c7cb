/** `Table.run`: filter the standings, join each contestant to the roster, sort by raw
    rank, normalize the ranks and lay out the report. */
module Table {
  import opened Wrappers
  import opened Model
  import opened Lists
  import opened Matcher
  import opened Inclusion
  import opened Sorting
  import opened Ranking
  import opened Roster
  import opened Report

  /** `notContestants`: handles that are never reported. */
  const NotContestants: set<string> := {"Bykov_David"}

  /** Each contestant, in order, paired with the roster record the matcher gives it. */
  function PairWithUsers(contestants: seq<Contestant>, users: seq<UserData>): (r: seq<MatchedRow>)
    ensures |r| == |contestants|
    ensures forall i :: 0 <= i < |r| ==> r[i] == MatchedRow(contestants[i], MapContestantToUser(contestants[i], users))
  {
    seq(|contestants|, i requires 0 <= i < |contestants| =>
      MatchedRow(contestants[i], MapContestantToUser(contestants[i], users)))
  }

  /** The list the normalizer consumes: filtered, joined and stably sorted by raw rank. */
  function Prepared(contestants: seq<Contestant>, users: seq<UserData>, excluded: set<string>): (r: seq<MatchedRow>)
    ensures |r| == |Eligible(contestants, excluded)|
    ensures SortedByRank(r)
    ensures multiset(r) == multiset(PairWithUsers(Eligible(contestants, excluded), users))
  {
    SortByRank(PairWithUsers(Eligible(contestants, excluded), users))
  }

  /** `contestantsWithUsers`: the chain from the standings to the normalized list. */
  method ContestantsWithUsers(contestants: seq<Contestant>, users: seq<UserData>, excluded: set<string>)
    returns (out: seq<MatchedRow>)
    ensures out == Normalized(Prepared(contestants, users, excluded))
  {
    var pairs := PairWithUsers(Eligible(contestants, excluded), users);
    var sorted := SortByRank(pairs);
    out := NormalizeRanks(sorted);
  }

  /** `run` once both services have answered: `contestants` is the standings, `sheet` the
      roster range's rows and `problemsList` the problem indices. The result is the rows
      written to the report, or the error `getAllUsers` throws on an empty range. */
  method Run(contestants: seq<Contestant>, sheet: Option<seq<Row>>, problemsList: seq<string>, show: real -> string)
    returns (r: Result<seq<seq<string>>, string>)
    ensures r.Failure? <==> sheet == None || sheet.value == []
    ensures r.Failure? ==> r.error == NoDataFound
    ensures r.Success? ==>
              var users := Collected(sheet.value, DecodeRosterRow);
              r.value == PrintAllInformation(Normalized(Prepared(contestants, users, NotContestants)), problemsList, show)
  {
    var users := GetAllUsers(sheet, DecodeRosterRow);
    if users.Failure? {
      return Failure(users.error);
    }
    var contestantsWithUsers := ContestantsWithUsers(contestants, users.value, NotContestants);
    return Success(PrintAllInformation(contestantsWithUsers, problemsList, show));
  }

  lemma RanksAppend(a: seq<MatchedRow>, b: seq<MatchedRow>)
    ensures Ranks(a + b) == Ranks(a) + Ranks(b)
  {
  }

  /** Taking the row at `j` out of `q` removes exactly its own contribution to the count. */
  lemma CountBelowWithout(q: seq<MatchedRow>, j: nat, x: int)
    requires j < |q|
    ensures CountBelow(Ranks(q), x)
            == CountBelow(Ranks(q[..j] + q[j + 1..]), x) + (if q[j].contestant.rank < x then 1 else 0)
  {
    var a, b := q[..j], q[j + 1..];
    assert q == a + [q[j]] + b;
    RanksAppend(a + [q[j]], b);
    RanksAppend(a, [q[j]]);
    RanksAppend(a, b);
    CountBelowAppend(Ranks(a) + [q[j].contestant.rank], Ranks(b), x);
    CountBelowAppend(Ranks(a), [q[j].contestant.rank], x);
    CountBelowAppend(Ranks(a), Ranks(b), x);
    var r := q[j].contestant.rank;
    assert Ranks([q[j]]) == [r];
    assert Ranks(q) == Ranks(a) + [r] + Ranks(b);
    assert [r][1..] == [];
    assert CountBelow([r], x) == if r < x then 1 else 0;
  }

  /** The count of better raw ranks does not depend on the order of the rows. */
  lemma {:induction false} CountBelowPermutation(p: seq<MatchedRow>, q: seq<MatchedRow>, x: int)
    requires multiset(p) == multiset(q)
    ensures CountBelow(Ranks(p), x) == CountBelow(Ranks(q), x)
    decreases |p|
  {
    if p == [] {
      assert |q| == |multiset(q)| == 0;
    } else {
      var h := p[0];
      assert p == [h] + p[1..];
      assert h in multiset(q);
      var j :| 0 <= j < |q| && q[j] == h;
      var rest := q[..j] + q[j + 1..];
      assert q == q[..j] + [h] + q[j + 1..];
      assert multiset(rest) == multiset(q) - multiset{h};
      assert multiset(p[1..]) == multiset(p) - multiset{h};
      CountBelowPermutation(p[1..], rest, x);
      CountBelowWithout(q, j, x);
      CountBelowWithout(p, 0, x);
      assert p[..0] + p[1..] == p[1..];
    }
  }

  /** Each row reaching the normalizer is a filtered contestant paired with its match. */
  lemma {:induction false} PreparedRow(contestants: seq<Contestant>, users: seq<UserData>, excluded: set<string>, i: nat)
    requires i < |Prepared(contestants, users, excluded)|
    ensures var row := Prepared(contestants, users, excluded)[i];
            && row.contestant.login !in excluded
            && row.contestant.points > PointsThreshold
            && row.user == MapContestantToUser(row.contestant, users)
  {
    var eligible := Eligible(contestants, excluded);
    var pairs := PairWithUsers(eligible, users);
    var sorted := Prepared(contestants, users, excluded);
    EligibleSpec(contestants, excluded);
    assert sorted[i] in multiset(pairs);
    var j :| 0 <= j < |pairs| && pairs[j] == sorted[i];
    assert sorted[i] == MatchedRow(eligible[j], MapContestantToUser(eligible[j], users));
  }

  /** What the report's rows are made of: every surviving contestant exactly once
      (as a permutation of the filtered list), each outside the exclusion set with more
      than `PointsThreshold` points, paired with the record the matcher gives for its login, and ranked
      one above the number of survivors with a strictly better raw rank. */
  lemma {:induction false} PipelineGuarantees(contestants: seq<Contestant>, users: seq<UserData>, excluded: set<string>)
    ensures var pairs := PairWithUsers(Eligible(contestants, excluded), users);
            var sorted := Prepared(contestants, users, excluded);
            var out := Normalized(sorted);
            && multiset(sorted) == multiset(pairs)
            && |out| == |pairs|
            && forall i :: 0 <= i < |out| ==>
                 && out[i].contestant.login !in excluded
                 && out[i].contestant.points > PointsThreshold
                 && out[i].user == MapContestantToUser(out[i].contestant, users)
                 && out[i].contestant == sorted[i].contestant.(rank := out[i].contestant.rank)
                 && out[i].contestant.rank == 1 + CountBelow(Ranks(pairs), sorted[i].contestant.rank)
  {
    var pairs := PairWithUsers(Eligible(contestants, excluded), users);
    var sorted := Prepared(contestants, users, excluded);
    var out := Normalized(sorted);
    var e := Exported(Initial, Ranks(sorted));
    SortedByRankIsSortedRanks(sorted);
    ExportedIsCompetitionRank(Ranks(sorted));
    forall i | 0 <= i < |out|
      ensures out[i].contestant.login !in excluded && out[i].contestant.points > PointsThreshold
      ensures out[i].user == MapContestantToUser(out[i].contestant, users)
      ensures out[i].contestant == sorted[i].contestant.(rank := out[i].contestant.rank)
      ensures out[i].contestant.rank == 1 + CountBelow(Ranks(pairs), sorted[i].contestant.rank)
    {
      assert out[i] == WithRank(sorted[i], e[i]);
      PreparedRow(contestants, users, excluded, i);
      MatchIgnoresRank(sorted[i].contestant, users, e[i]);
      CountBelowPermutation(sorted, pairs, sorted[i].contestant.rank);
    }
  }

  // ---------------------------------------------------------------------------
  // Worked scenarios

  /** A roster in which "Ann " matches "ann" once trimmed and "bob" matches "BOB" ignoring case. */
  const ExampleRoster: seq<UserData> := [UserData("Ann ", "Ann", "S1"), UserData("bob", "Bob", "S2")]

  /** Two contestants tied for first place and one in third place, who has no roster record. */
  const ExampleStandings: seq<Contestant> :=
    [Contestant("ann", 1, 10.0, [5.0, 5.0]), Contestant("BOB", 1, 10.0, [10.0, 0.0]), Contestant("carl", 3, 1.0, [1.0, 0.0])]

  lemma TrimmedExampleLogins()
    ensures Text.Trim(ExampleRoster[0].login) == "Ann" && Text.Trim(ExampleRoster[1].login) == "bob"
  {
    Text.TrimDropsTrailing("Ann", " ");
    assert "Ann" + " " == "Ann ";
    Text.TrimDropsTrailing("bob", "");
    assert "bob" + "" == "bob";
  }

  lemma AnnMatchesFirstRecordOnly()
    ensures LoginMatches(ExampleRoster[0], "ann") && !LoginMatches(ExampleRoster[1], "ann")
  {
    TrimmedExampleLogins();
  }

  lemma BobMatchesSecondRecordOnly()
    ensures !LoginMatches(ExampleRoster[0], "BOB") && LoginMatches(ExampleRoster[1], "BOB")
  {
    TrimmedExampleLogins();
    assert Text.FoldCase('B') == 'b' && Text.FoldCase('O') == 'o' && Text.FoldCase('A') == 'a';
  }

  lemma CarlMatchesNothing()
    ensures !LoginMatches(ExampleRoster[0], "carl") && !LoginMatches(ExampleRoster[1], "carl")
  {
    TrimmedExampleLogins();
  }

  lemma ExampleMatches(standings: seq<Contestant>, roster: seq<UserData>)
    requires standings == ExampleStandings && roster == ExampleRoster
    ensures MapContestantToUser(standings[0], roster) == Some(roster[0])
    ensures MapContestantToUser(standings[1], roster) == Some(roster[1])
    ensures MapContestantToUser(standings[2], roster) == None
  {
    AnnMatchesFirstRecordOnly();
    BobMatchesSecondRecordOnly();
    CarlMatchesNothing();
    assert OnlyAt(roster, MatchesLogin(standings[0].login), 0);
    assert OnlyAt(roster, MatchesLogin(standings[1].login), 1);
    assert forall j :: 0 <= j < |roster| ==> !LoginMatches(roster[j], standings[2].login);
  }

  lemma ExampleEligible(excluded: set<string>)
    requires excluded == {} || excluded == {"carl"}
    ensures Eligible(ExampleStandings, excluded) == if excluded == {} then ExampleStandings else ExampleStandings[..2]
  {
    var kept := if excluded == {} then ExampleStandings else ExampleStandings[..2];
    var s := ExampleStandings;
    var p := (c: Contestant) => NotExcluded(c, excluded);
    assert Filter(s, p) == kept by {
      FilterCons(s[0], s[1..], p);
      FilterCons(s[1], s[2..], p);
      FilterCons(s[2], s[3..], p);
      assert s == [s[0]] + ([s[1]] + ([s[2]] + s[3..]));
    }
    assert Filter(kept, Scored) == kept by {
      FilterCons(kept[0], kept[1..], Scored);
      FilterCons(kept[1], kept[2..], Scored);
      if excluded == {} {
        FilterCons(kept[2], kept[3..], Scored);
      }
    }
  }

  /** Pairing keeps the contestants and their raw ranks, whatever the roster. */
  lemma RanksOfPairs(contestants: seq<Contestant>, users: seq<UserData>)
    ensures |Ranks(PairWithUsers(contestants, users))| == |contestants|
    ensures forall i :: 0 <= i < |contestants| ==> Ranks(PairWithUsers(contestants, users))[i] == contestants[i].rank
  {
  }

  /** Standings that survive the filters already in raw-rank order are not reordered. */
  lemma PreparedWhenSorted(contestants: seq<Contestant>, users: seq<UserData>, excluded: set<string>)
    requires var e := Eligible(contestants, excluded);
             forall i, j :: 0 <= i < j < |e| ==> e[i].rank <= e[j].rank
    ensures Prepared(contestants, users, excluded) == PairWithUsers(Eligible(contestants, excluded), users)
  {
    var pairs := PairWithUsers(Eligible(contestants, excluded), users);
    assert SortedByRank(pairs);
    SortSortedIsIdentity(pairs);
  }

  /** When the survivors are already in raw-rank order, the report lists them in that order,
      each with its own match, ranked by the normalizer run over their raw ranks. */
  lemma {:induction false} NormalizedWhenSorted(contestants: seq<Contestant>, users: seq<UserData>, excluded: set<string>)
    requires var e := Eligible(contestants, excluded);
             forall i, j :: 0 <= i < j < |e| ==> e[i].rank <= e[j].rank
    ensures var e := Eligible(contestants, excluded);
            var out := Normalized(Prepared(contestants, users, excluded));
            && |out| == |e|
            && Ranks(out) == Exported(Initial, Ranks(PairWithUsers(e, users)))
            && forall i :: 0 <= i < |e| ==> out[i].user == MapContestantToUser(e[i], users)
  {
    var e := Eligible(contestants, excluded);
    PreparedWhenSorted(contestants, users, excluded);
    var pairs := PairWithUsers(e, users);
    RanksOfNormalized(pairs);
  }

  /** The normalized ranks of survivors whose raw ranks are already in order. */
  lemma {:induction false} SortedSurvivorRanks(contestants: seq<Contestant>, users: seq<UserData>, excluded: set<string>, raw: seq<int>)
    requires Ranks(PairWithUsers(Eligible(contestants, excluded), users)) == raw
    requires forall i, j :: 0 <= i < j < |raw| ==> raw[i] <= raw[j]
    ensures Ranks(Normalized(Prepared(contestants, users, excluded))) == Exported(Initial, raw)
  {
    var e := Eligible(contestants, excluded);
    RanksOfPairs(e, users);
    assert forall i :: 0 <= i < |e| ==> e[i].rank == raw[i];
    NormalizedWhenSorted(contestants, users, excluded);
  }

  /** Two tied scorers share first place and the next scorer is third, whatever the raw ranks. */
  lemma TieScenarioRanks(a: Contestant, b: Contestant, c: Contestant, users: seq<UserData>)
    requires Scored(a) && Scored(b) && Scored(c)
    requires a.rank == b.rank < c.rank
    ensures Ranks(Normalized(Prepared([a, b, c], users, {}))) == [1, 1, 3]
  {
    var s := [a, b, c];
    var p := (x: Contestant) => NotExcluded(x, {});
    assert Eligible(s, {}) == s by {
      FilterCons(a, [b, c], p);
      FilterCons(b, [c], p);
      FilterCons(c, [], p);
      assert Filter(s, p) == s;
      FilterCons(a, [b, c], Scored);
      FilterCons(b, [c], Scored);
      FilterCons(c, [], Scored);
    }
    var raw := [a.rank, a.rank, c.rank];
    assert Ranks(PairWithUsers(Eligible(s, {}), users)) == raw by { RanksOfPairs(s, users); }
    assert Exported(Initial, raw) == [1, 1, 3] by { ExportedTieThenNext(a.rank, c.rank); }
    SortedSurvivorRanks(s, users, {}, raw);
  }

  /** "ann" and "BOB" get their roster records and "carl" is reported without one. */
  lemma TieScenarioUsers(standings: seq<Contestant>, roster: seq<UserData>)
    requires standings == ExampleStandings && roster == ExampleRoster
    ensures var out := Normalized(Prepared(standings, roster, {}));
            |out| == 3 && out[0].user == Some(roster[0]) && out[1].user == Some(roster[1]) && out[2].user == None
  {
    ExampleEligible({});
    NormalizedWhenSorted(standings, roster, {});
    ExampleMatches(standings, roster);
  }

  /** An excluded login is dropped before ranking, so it leaves no gap: the two tied rows
      that remain rank first, whatever the raw ranks. */
  lemma ExclusionScenario(a: Contestant, b: Contestant, c: Contestant, users: seq<UserData>, excluded: set<string>)
    requires Scored(a) && Scored(b)
    requires a.login !in excluded && b.login !in excluded && c.login in excluded
    requires a.rank == b.rank
    ensures Ranks(Normalized(Prepared([a, b, c], users, excluded))) == [1, 1]
  {
    var s := [a, b, c];
    var p := (x: Contestant) => NotExcluded(x, excluded);
    assert Eligible(s, excluded) == [a, b] by {
      FilterCons(a, [b, c], p);
      FilterCons(b, [c], p);
      FilterCons(c, [], p);
      assert Filter(s, p) == [a, b];
      FilterCons(a, [b], Scored);
      FilterCons(b, [], Scored);
    }
    var raw := [a.rank, a.rank];
    assert Ranks(PairWithUsers(Eligible(s, excluded), users)) == raw by { RanksOfPairs([a, b], users); }
    assert Exported(Initial, raw) == [1, 1] by { ExportedTieThenNext(a.rank, a.rank + 1); }
    SortedSurvivorRanks(s, users, excluded, raw);
  }
}
