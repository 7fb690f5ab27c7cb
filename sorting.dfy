/** The sort of `Table.run`: a stable sort of the matched rows by raw rank. */
module Sorting {
  import opened Model
  import opened Lists

  predicate SortedByRank(s: seq<MatchedRow>) {
    forall i, j :: 0 <= i < j < |s| ==> s[i].contestant.rank <= s[j].contestant.rank
  }

  /** The rows of `s` with raw rank `rank`, in their order in `s`. */
  function OfRank(s: seq<MatchedRow>, rank: int): seq<MatchedRow> {
    Filter(s, (row: MatchedRow) => row.contestant.rank == rank)
  }

  /** Puts `x` into sorted `s` before the first row whose rank is not smaller than `x`'s. */
  function Insert(x: MatchedRow, s: seq<MatchedRow>): (r: seq<MatchedRow>)
    requires SortedByRank(s)
    ensures |r| == |s| + 1
    ensures SortedByRank(r)
    ensures multiset(r) == multiset(s) + multiset{x}
    ensures r[0] == x || (|s| > 0 && r[0] == s[0])
  {
    if s == [] || x.contestant.rank <= s[0].contestant.rank then
      ConsSorted(x, s);
      [x] + s
    else
      var rest := Insert(x, s[1..]);
      assert s == [s[0]] + s[1..];
      ConsSorted(s[0], rest);
      [s[0]] + rest
  }

  /** Helper: a row no later than the head of a sorted sequence may go in front of it. */
  lemma ConsSorted(x: MatchedRow, s: seq<MatchedRow>)
    requires SortedByRank(s)
    requires s == [] || x.contestant.rank <= s[0].contestant.rank
    ensures SortedByRank([x] + s)
  {
    var r := [x] + s;
    assert forall k :: 0 < k < |r| ==> r[k] == s[k - 1];
  }

  /** The rows ordered by raw rank; a permutation of the input. */
  function SortByRank(s: seq<MatchedRow>): (r: seq<MatchedRow>)
    ensures |r| == |s|
    ensures SortedByRank(r)
    ensures multiset(r) == multiset(s)
  {
    if s == [] then []
    else
      assert s == [s[0]] + s[1..];
      Insert(s[0], SortByRank(s[1..]))
  }

  lemma {:induction false} InsertIsStable(x: MatchedRow, s: seq<MatchedRow>, rank: int)
    requires SortedByRank(s)
    ensures OfRank(Insert(x, s), rank) == (if x.contestant.rank == rank then [x] else []) + OfRank(s, rank)
  {
    var p := (row: MatchedRow) => row.contestant.rank == rank;
    if s == [] || x.contestant.rank <= s[0].contestant.rank {
      assert Insert(x, s) == [x] + s;
      FilterCons(x, s, p);
    } else {
      var rest := Insert(x, s[1..]);
      var head: seq<MatchedRow> := if s[0].contestant.rank == rank then [s[0]] else [];
      assert Insert(x, s) == [s[0]] + rest;
      assert OfRank(rest, rank) == (if x.contestant.rank == rank then [x] else []) + OfRank(s[1..], rank) by {
        InsertIsStable(x, s[1..], rank);
      }
      assert OfRank([s[0]] + rest, rank) == head + OfRank(rest, rank) by {
        FilterCons(s[0], rest, p);
      }
      assert OfRank(s, rank) == head + OfRank(s[1..], rank) by {
        assert s == [s[0]] + s[1..];
        FilterCons(s[0], s[1..], p);
      }
    }
  }

  /** Stability: the rows sharing a raw rank keep their relative order. */
  lemma {:induction false} SortByRankIsStable(s: seq<MatchedRow>, rank: int)
    ensures OfRank(SortByRank(s), rank) == OfRank(s, rank)
  {
    if s != [] {
      var p := (row: MatchedRow) => row.contestant.rank == rank;
      SortByRankIsStable(s[1..], rank);
      InsertIsStable(s[0], SortByRank(s[1..]), rank);
      FilterCons(s[0], s[1..], p);
      assert s == [s[0]] + s[1..];
    }
  }

  /** Sorting a list that is already sorted changes nothing. */
  lemma {:induction false} SortSortedIsIdentity(s: seq<MatchedRow>)
    requires SortedByRank(s)
    ensures SortByRank(s) == s
  {
    if s != [] {
      SortSortedIsIdentity(s[1..]);
      assert s == [s[0]] + s[1..];
    }
  }
}
