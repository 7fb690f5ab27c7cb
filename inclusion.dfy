/** The two filters `Table.run` applies to the standings before anything else. */
module Inclusion {
  import opened Model
  import opened Lists

  /** The lowest total a contestant must exceed to be reported. */
  const PointsThreshold: real := 0.5

  predicate NotExcluded(c: Contestant, excluded: set<string>) {
    c.login !in excluded
  }

  predicate Scored(c: Contestant) {
    c.points > PointsThreshold
  }

  /** The exclusion filter, then the score filter: the contestants outside `excluded`
      with more than `PointsThreshold` points, in standings order. */
  function Eligible(contestants: seq<Contestant>, excluded: set<string>): seq<Contestant> {
    var kept := Filter(contestants, (c: Contestant) => NotExcluded(c, excluded));
    Filter(kept, Scored)
  }

  /** Survivors are exactly the contestants outside the exclusion set that scored above
      the threshold, each as often as in the standings, and in standings order. */
  lemma {:induction false} EligibleSpec(contestants: seq<Contestant>, excluded: set<string>)
    ensures var r := Eligible(contestants, excluded);
            && (forall i :: 0 <= i < |r| ==> r[i].login !in excluded && r[i].points > PointsThreshold)
            && (forall c :: multiset(r)[c] == if c.login !in excluded && c.points > PointsThreshold
                                               then multiset(contestants)[c] else 0)
            && IsSubsequence(r, contestants)
  {
    var p := (c: Contestant) => NotExcluded(c, excluded);
    var kept := Filter(contestants, p);
    var r := Filter(kept, Scored);
    FilterCounts(contestants, p);
    FilterCounts(kept, Scored);
    FilterKeepsOrder(contestants, p);
    FilterKeepsOrder(kept, Scored);
    SubsequenceTransitive(r, kept, contestants);
    forall i | 0 <= i < |r| ensures r[i].login !in excluded {
      assert r[i] in multiset(r);
    }
  }

  lemma {:induction false} SubsequenceTransitive<T>(a: seq<T>, b: seq<T>, c: seq<T>)
    requires IsSubsequence(a, b) && IsSubsequence(b, c)
    ensures IsSubsequence(a, c)
    decreases |c|
  {
    if a != [] {
      assert b != [] && c != [];
      if b[0] == c[0] && IsSubsequence(b[1..], c[1..]) {
        if a[0] == b[0] && IsSubsequence(a[1..], b[1..]) {
          SubsequenceTransitive(a[1..], b[1..], c[1..]);
        } else {
          SubsequenceTransitive(a, b[1..], c[1..]);
        }
      } else {
        SubsequenceTransitive(a, b, c[1..]);
      }
    }
  }
}
