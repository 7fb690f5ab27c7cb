/**
 * The rank normalizer of `Table.run`: an object with three counters whose `apply`
 * rewrites each raw rank, in stream order, into a standard competition rank
 * (tied rows share a rank, the next group skips ahead by the size of the tie).
 */
module Ranking {
  import opened Model
  import opened Sorting

  /** The normalizer's counters. `better`: rows ranked strictly above the current group;
      `prev`: the raw rank of the current group; `prevCnt`: the rows seen in that group. */
  datatype Counters = Counters(better: int, prev: int, prevCnt: int)

  /** The counters' initial values. */
  const Initial: Counters := Counters(0, 0, 0)

  /** The counters after `apply` has seen a row of raw rank `rank`. */
  function Step(c: Counters, rank: int): Counters {
    if rank != c.prev then Counters(c.better + c.prevCnt, rank, 1)
    else c.(prevCnt := c.prevCnt + 1)
  }

  /** What one step keeps: the current group becomes `rank`'s, `better + prevCnt` counts
      one more row, and `better` only moves forward, and only when a new group starts. */
  lemma StepAccounting(c: Counters, rank: int)
    ensures Step(c, rank).prev == rank
    ensures Step(c, rank).better + Step(c, rank).prevCnt == c.better + c.prevCnt + 1
    ensures c.prevCnt >= 0 ==> c.better <= Step(c, rank).better
    ensures Step(c, rank).better != c.better ==> rank != c.prev
  {
  }

  /** The exported ranks the normalizer emits for the raw ranks `raw`, starting from `c`:
      the stream of `apply` calls as a left fold with its accumulator made explicit. */
  function Exported(c: Counters, raw: seq<int>): (r: seq<int>)
    ensures |r| == |raw|
    decreases raw
  {
    if raw == [] then []
    else
      var next := Step(c, raw[0]);
      [next.better + 1] + Exported(next, raw[1..])
  }

  function Ranks(s: seq<MatchedRow>): seq<int> {
    seq(|s|, i requires 0 <= i < |s| => s[i].contestant.rank)
  }

  /** The normalized list: each row with its rank replaced by the exported rank. */
  function Normalized(s: seq<MatchedRow>): (r: seq<MatchedRow>)
    ensures |r| == |s|
    ensures forall i :: 0 <= i < |s| ==> r[i].user == s[i].user
    ensures forall i :: 0 <= i < |s| ==> r[i].contestant == s[i].contestant.(rank := r[i].contestant.rank)
  {
    var e := Exported(Initial, Ranks(s));
    seq(|s|, i requires 0 <= i < |s| => WithRank(s[i], e[i]))
  }

  /** The anonymous function object that `Table.run` maps over the sorted rows. */
  class RankNormalizer {
    var better: int
    var prev: int
    var prevCnt: int

    function State(): Counters
      reads this
    {
      Counters(better, prev, prevCnt)
    }

    constructor ()
      ensures State() == Initial
    {
      better, prev, prevCnt := 0, 0, 0;
    }

    /** `apply(t)`: advances the counters past `t` and returns `t` carrying the exported rank. */
    method Apply(t: MatchedRow) returns (r: MatchedRow)
      modifies this
      ensures State() == Step(old(State()), t.contestant.rank)
      ensures r == WithRank(t, better + 1)
    {
      if t.contestant.rank != prev {
        better := better + prevCnt;
        prevCnt := 1;
        prev := t.contestant.rank;
        return WithRank(t, better + 1);
      } else {
        prevCnt := prevCnt + 1;
      }
      return WithRank(t, better + 1);
    }
  }

  /** Mapping a fresh normalizer over the sorted rows in order and collecting the results.
      Only ranks change; on rows sorted by raw rank each exported rank is one more than
      the number of rows with a strictly smaller raw rank. */
  method NormalizeRanks(s: seq<MatchedRow>) returns (out: seq<MatchedRow>)
    ensures out == Normalized(s)
    ensures |out| == |s|
    ensures forall i :: 0 <= i < |s| ==> out[i].user == s[i].user
    ensures forall i :: 0 <= i < |s| ==> out[i].contestant == s[i].contestant.(rank := out[i].contestant.rank)
    ensures SortedByRank(s) ==>
              forall i :: 0 <= i < |s| ==> out[i].contestant.rank == 1 + CountBelow(Ranks(s), s[i].contestant.rank)
  {
    var normalizer := new RankNormalizer();
    ghost var raw := Ranks(s);
    ghost var e := Exported(Initial, raw);
    out := [];
    var k := 0;
    while k < |s|
      invariant 0 <= k <= |s|
      invariant |out| == k
      invariant forall i :: 0 <= i < k ==> out[i] == WithRank(s[i], e[i])
      invariant e[k..] == Exported(normalizer.State(), raw[k..])
    {
      ghost var before := normalizer.State();
      var row := normalizer.Apply(s[k]);
      assert raw[k..][1..] == raw[k + 1..];
      assert e[k..] == [Step(before, raw[k]).better + 1] + Exported(normalizer.State(), raw[k + 1..]);
      assert e[k..][1..] == e[k + 1..];
      out := out + [row];
      k := k + 1;
    }
    if SortedByRank(s) {
      ExportedIsCompetitionRank(raw);
    }
  }

  // ---------------------------------------------------------------------------
  // Counting

  /** How many raw ranks in `s` are strictly smaller than `x`. */
  function CountBelow(s: seq<int>, x: int): (n: nat)
    ensures n <= |s|
  {
    if s == [] then 0 else (if s[0] < x then 1 else 0) + CountBelow(s[1..], x)
  }

  /** How many raw ranks in `s` equal `x`: the size of `x`'s tie group. */
  function GroupSize(s: seq<int>, x: int): (n: nat)
    ensures n <= |s|
  {
    if s == [] then 0 else (if s[0] == x then 1 else 0) + GroupSize(s[1..], x)
  }

  ghost predicate Sorted(s: seq<int>) {
    forall i, j :: 0 <= i < j < |s| ==> s[i] <= s[j]
  }

  /** Rows are sorted by rank exactly when their raw ranks are sorted. */
  lemma SortedByRankIsSortedRanks(s: seq<MatchedRow>)
    ensures SortedByRank(s) <==> Sorted(Ranks(s))
  {
    assert forall i :: 0 <= i < |s| ==> Ranks(s)[i] == s[i].contestant.rank;
  }

  lemma {:induction false} CountBelowSplit(s: seq<int>, k: nat, x: int)
    requires k <= |s|
    requires forall i :: 0 <= i < k ==> s[i] < x
    requires forall i :: k <= i < |s| ==> s[i] >= x
    ensures CountBelow(s, x) == k
  {
    if s != [] {
      CountBelowSplit(s[1..], if k == 0 then 0 else k - 1, x);
    }
  }

  lemma {:induction false} CountBelowMonotone(s: seq<int>, x: int, y: int)
    requires x <= y
    ensures CountBelow(s, x) <= CountBelow(s, y)
  {
    if s != [] {
      CountBelowMonotone(s[1..], x, y);
    }
  }

  /** A raw rank that occurs in `s` is counted below every larger one. */
  lemma {:induction false} CountBelowStrict(s: seq<int>, x: int, y: int)
    requires x < y && x in s
    ensures CountBelow(s, x) < CountBelow(s, y)
  {
    if s[0] == x {
      CountBelowMonotone(s[1..], x, y);
    } else {
      CountBelowStrict(s[1..], x, y);
    }
  }

  /** With nothing in `s` strictly between `x` and `y`, the rows below `y` are those
      below `x` plus `x`'s group. */
  lemma {:induction false} CountBelowNextGroup(s: seq<int>, x: int, y: int)
    requires x < y
    requires forall i :: 0 <= i < |s| ==> s[i] <= x || s[i] >= y
    ensures CountBelow(s, y) == CountBelow(s, x) + GroupSize(s, x)
  {
    if s != [] {
      CountBelowNextGroup(s[1..], x, y);
    }
  }

  /** Counting depends only on which positions fall below the bound. */
  lemma {:induction false} CountBelowTransfer(a: seq<int>, x: int, b: seq<int>, y: int)
    requires |a| == |b|
    requires forall i :: 0 <= i < |a| ==> (a[i] < x <==> b[i] < y)
    ensures CountBelow(a, x) == CountBelow(b, y)
  {
    if a != [] {
      CountBelowTransfer(a[1..], x, b[1..], y);
    }
  }

  // ---------------------------------------------------------------------------
  // What the normalizer computes

  /** The counters after the first `k` raw ranks of a sorted list. */
  ghost predicate ReachedAfter(raw: seq<int>, k: nat, c: Counters)
    requires k <= |raw|
  {
    if k == 0 then c == Initial
    else c.prev == raw[k - 1] && c.better == CountBelow(raw, raw[k - 1]) && c.better + c.prevCnt == k
  }

  lemma {:induction false} ExportedFrom(raw: seq<int>, k: nat, c: Counters)
    requires Sorted(raw) && k <= |raw| && ReachedAfter(raw, k, c)
    ensures forall i :: k <= i < |raw| ==> Exported(c, raw[k..])[i - k] == 1 + CountBelow(raw, raw[i])
    decreases |raw| - k
  {
    if k < |raw| {
      var next := Step(c, raw[k]);
      assert next.better == CountBelow(raw, raw[k]) by {
        if k == 0 {
          CountBelowSplit(raw, 0, raw[0]);
        } else if raw[k] != c.prev {
          CountBelowSplit(raw, k, raw[k]);
        }
      }
      assert ReachedAfter(raw, k + 1, next);
      ExportedFrom(raw, k + 1, next);
      var e := Exported(c, raw[k..]);
      assert e == [next.better + 1] + Exported(next, raw[k + 1..]) by {
        assert raw[k..][1..] == raw[k + 1..];
      }
      forall i | k < i < |raw| ensures e[i - k] == 1 + CountBelow(raw, raw[i]) {
        assert e[i - k] == Exported(next, raw[k + 1..])[i - (k + 1)];
      }
    }
  }

  /** On sorted raw ranks the exported rank of each row is one more than the number
      of rows with a strictly smaller raw rank: standard competition ranking. */
  lemma ExportedIsCompetitionRank(raw: seq<int>)
    requires Sorted(raw)
    ensures forall i :: 0 <= i < |raw| ==> Exported(Initial, raw)[i] == 1 + CountBelow(raw, raw[i])
  {
    ExportedFrom(raw, 0, Initial);
    assert raw[0..] == raw;
  }

  /** The same, counting only the rows that come earlier. */
  lemma ExportedCountsEarlierRows(raw: seq<int>, i: nat)
    requires Sorted(raw) && i < |raw|
    ensures Exported(Initial, raw)[i] == 1 + CountBelow(raw[..i], raw[i])
  {
    ExportedIsCompetitionRank(raw);
    assert raw == raw[..i] + raw[i..];
    CountBelowAppend(raw[..i], raw[i..], raw[i]);
    CountBelowSplit(raw[i..], 0, raw[i]);
  }

  lemma {:induction false} CountBelowAppend(a: seq<int>, b: seq<int>, x: int)
    ensures CountBelow(a + b, x) == CountBelow(a, x) + CountBelow(b, x)
  {
    if a == [] {
      assert a + b == b;
    } else {
      assert (a + b)[1..] == a[1..] + b;
      CountBelowAppend(a[1..], b, x);
    }
  }

  // ---------------------------------------------------------------------------
  // Shape of the exported ranks

  lemma {:induction false} ExportedBoundsFrom(c: Counters, raw: seq<int>)
    requires c.better >= 0 && c.prevCnt >= 0
    ensures forall i :: 0 <= i < |raw| ==> c.better + 1 <= Exported(c, raw)[i] <= c.better + c.prevCnt + i + 1
    decreases raw
  {
    if raw != [] {
      ExportedBoundsFrom(Step(c, raw[0]), raw[1..]);
    }
  }

  /** Whatever the order of the input, the first row gets rank 1 and the row at
      position `i` gets a rank between 1 and `i + 1`. */
  lemma ExportedBounds(raw: seq<int>)
    ensures forall i :: 0 <= i < |raw| ==> 1 <= Exported(Initial, raw)[i] <= i + 1
    ensures |raw| > 0 ==> Exported(Initial, raw)[0] == 1
  {
    ExportedBoundsFrom(Initial, raw);
  }

  lemma {:induction false} TiesFrom(c: Counters, raw: seq<int>, i: nat)
    requires i + 1 < |raw| && raw[i] == raw[i + 1]
    ensures Exported(c, raw)[i] == Exported(c, raw)[i + 1]
    decreases i
  {
    var next := Step(c, raw[0]);
    if i == 0 {
      assert raw[1..][0] == raw[1];
      assert Exported(next, raw[1..])[0] == Step(next, raw[1]).better + 1;
    } else {
      TiesFrom(next, raw[1..], i - 1);
    }
  }

  /** Consecutive rows with equal raw ranks share an exported rank, whatever the order
      of the rest of the input. */
  lemma TiesShareRank(raw: seq<int>, i: nat)
    requires i + 1 < |raw| && raw[i] == raw[i + 1]
    ensures Exported(Initial, raw)[i] == Exported(Initial, raw)[i + 1]
  {
    TiesFrom(Initial, raw, i);
  }

  /** On sorted raw ranks, a row that starts a new group is ranked after the previous
      row by exactly the size of the previous row's group. */
  lemma GroupJump(raw: seq<int>, i: nat)
    requires Sorted(raw) && i + 1 < |raw| && raw[i] != raw[i + 1]
    ensures Exported(Initial, raw)[i + 1] == Exported(Initial, raw)[i] + GroupSize(raw, raw[i])
  {
    ExportedIsCompetitionRank(raw);
    CountBelowNextGroup(raw, raw[i], raw[i + 1]);
  }

  /** On sorted raw ranks the exported ranks never decrease, and they increase from one
      row to the next exactly where a new raw-rank group starts. */
  lemma ExportedIsSorted(raw: seq<int>)
    requires Sorted(raw)
    ensures Sorted(Exported(Initial, raw))
    ensures forall i :: 0 <= i < |raw| - 1 ==>
              (Exported(Initial, raw)[i] < Exported(Initial, raw)[i + 1] <==> raw[i] < raw[i + 1])
  {
    var e := Exported(Initial, raw);
    ExportedIsCompetitionRank(raw);
    forall i, j | 0 <= i < j < |raw| ensures e[i] <= e[j] {
      CountBelowMonotone(raw, raw[i], raw[j]);
    }
    forall i | 0 <= i < |raw| - 1 ensures e[i] < e[i + 1] <==> raw[i] < raw[i + 1] {
      if raw[i] < raw[i + 1] {
        CountBelowStrict(raw, raw[i], raw[i + 1]);
      }
    }
  }

  /** Normalizing exported ranks again leaves them as they are. */
  lemma ExportedIsIdempotent(raw: seq<int>)
    requires Sorted(raw)
    ensures Exported(Initial, Exported(Initial, raw)) == Exported(Initial, raw)
  {
    var e := Exported(Initial, raw);
    ExportedIsCompetitionRank(raw);
    ExportedIsSorted(raw);
    ExportedIsCompetitionRank(e);
    forall i | 0 <= i < |e| ensures Exported(Initial, e)[i] == e[i] {
      forall j | 0 <= j < |e| ensures e[j] < e[i] <==> raw[j] < raw[i] {
        if raw[j] < raw[i] {
          CountBelowStrict(raw, raw[j], raw[i]);
        } else {
          CountBelowMonotone(raw, raw[i], raw[j]);
        }
      }
      CountBelowTransfer(e, e[i], raw, raw[i]);
    }
  }

  lemma RanksOfNormalized(s: seq<MatchedRow>)
    ensures Ranks(Normalized(s)) == Exported(Initial, Ranks(s))
  {
  }

  /** Normalizing a normalized list of sorted rows changes nothing. */
  lemma NormalizedIsIdempotent(s: seq<MatchedRow>)
    requires SortedByRank(s)
    ensures Normalized(Normalized(s)) == Normalized(s)
  {
    var n := Normalized(s);
    SortedByRankIsSortedRanks(s);
    RanksOfNormalized(s);
    ExportedIsIdempotent(Ranks(s));
    assert Ranks(n) == Exported(Initial, Ranks(n));
  }

  /** Raw ranks 1, 2, 2, 4 and 1, 1, 3 are already
      competition ranks, and 1, 1, 3 without its last row gives 1, 1. */
  lemma ExportedExamples()
    ensures Exported(Initial, [1, 2, 2, 4]) == [1, 2, 2, 4]
    ensures Exported(Initial, [1, 1, 3]) == [1, 1, 3]
    ensures Exported(Initial, [1, 1]) == [1, 1]
  {
    var c := Step(Initial, 1);
    assert c == Counters(0, 1, 1);
    assert Exported(Step(c, 1), [3]) == [3];
    assert Exported(Step(c, 2), [2, 4]) == [2, 4] by {
      assert Step(Step(c, 2), 2) == Counters(1, 2, 2);
      assert Exported(Step(Step(c, 2), 2), [4]) == [4];
    }
  }

  /** Whatever the raw ranks, two tied rows followed by a different rank export 1, 1, 3,
      and the two tied rows alone export 1, 1: the starting sentinel `prev == 0` makes no
      difference even when the first raw rank is 0. */
  lemma ExportedTieThenNext(x: int, y: int)
    requires x != y
    ensures Exported(Initial, [x, x, y]) == [1, 1, 3]
    ensures Exported(Initial, [x, x]) == [1, 1]
  {
    var c1 := Step(Initial, x);
    assert c1 == Counters(0, x, 1);
    var c2 := Step(c1, x);
    assert c2 == Counters(0, x, 2);
    assert Step(c2, y) == Counters(2, y, 1);
    assert Exported(c2, [y]) == [3];
    assert Exported(c2, []) == [];
    assert [x, x, y][1..] == [x, y] && [x, y][1..] == [y];
    assert [x, x][1..] == [x] && [x][1..] == [];
  }
}
