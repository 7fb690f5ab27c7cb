/** Kotlin's `List.filter`, with what it promises about order and contents. */
module Lists {

  /** `a` can be obtained from `b` by deleting elements: `a` keeps `b`'s order. */
  ghost predicate IsSubsequence<T>(a: seq<T>, b: seq<T>)
    decreases |b|
  {
    if a == [] then true
    else if b == [] then false
    else (a[0] == b[0] && IsSubsequence(a[1..], b[1..])) || IsSubsequence(a, b[1..])
  }

  /** The elements of `s` that satisfy `p`, in their original order. */
  function Filter<T>(s: seq<T>, p: T -> bool): (r: seq<T>)
    ensures |r| <= |s|
    ensures forall i :: 0 <= i < |r| ==> p(r[i])
  {
    if s == [] then []
    else
      var rest := Filter(s[1..], p);
      if p(s[0]) then [s[0]] + rest else rest
  }

  /** Each element is kept as often as it occurs when it satisfies `p`, and never otherwise. */
  lemma {:induction false} FilterCounts<T(!new)>(s: seq<T>, p: T -> bool)
    ensures forall x :: multiset(Filter(s, p))[x] == if p(x) then multiset(s)[x] else 0
  {
    if s != [] {
      assert s == [s[0]] + s[1..];
      FilterCounts(s[1..], p);
    }
  }

  /** The kept elements stay in their original order. */
  lemma {:induction false} FilterKeepsOrder<T>(s: seq<T>, p: T -> bool)
    ensures IsSubsequence(Filter(s, p), s)
  {
    if s != [] {
      FilterKeepsOrder(s[1..], p);
      var rest := Filter(s[1..], p);
      if p(s[0]) {
        assert ([s[0]] + rest)[1..] == rest;
      }
    }
  }

  lemma FilterCons<T>(x: T, s: seq<T>, p: T -> bool)
    ensures Filter([x] + s, p) == (if p(x) then [x] else []) + Filter(s, p)
  {
    assert ([x] + s)[1..] == s;
  }

  lemma {:induction false} FilterAppend<T>(a: seq<T>, b: seq<T>, p: T -> bool)
    ensures Filter(a + b, p) == Filter(a, p) + Filter(b, p)
  {
    if a == [] {
      assert a + b == b;
    } else {
      var x, t := a[0], a[1..];
      assert a + b == [x] + (t + b);
      assert a == [x] + t;
      FilterCons(x, t + b, p);
      FilterCons(x, t, p);
      FilterAppend(t, b, p);
      if p(x) {
        assert Filter(a + b, p) == [x] + (Filter(t, p) + Filter(b, p));
      } else {
        assert Filter(a + b, p) == Filter(t, p) + Filter(b, p);
      }
    }
  }

  /** `p` holds at index `j` of `s` and nowhere else. */
  ghost predicate OnlyAt<T>(s: seq<T>, p: T -> bool, j: int) {
    && 0 <= j < |s|
    && p(s[j])
    && forall k :: 0 <= k < |s| && k != j ==> !p(s[k])
  }

  /** A filter keeps exactly one element precisely when exactly one index satisfies `p`,
      and then it keeps that element. */
  lemma {:induction false} FilterSingleton<T(!new)>(s: seq<T>, p: T -> bool)
    ensures |Filter(s, p)| == 1 <==> exists j :: OnlyAt(s, p, j)
    ensures forall j :: OnlyAt(s, p, j) ==> Filter(s, p) == [s[j]]
  {
    if s != [] {
      var t := s[1..];
      FilterSingleton(t, p);
      FilterCounts(t, p);
      FilterCons(s[0], t, p);
      assert s == [s[0]] + t;
      if p(s[0]) {
        if Filter(t, p) == [] {
          forall k | 0 <= k < |t| ensures !p(t[k]) {
            assert multiset(Filter(t, p))[t[k]] == 0;
          }
          assert OnlyAt(s, p, 0);
        } else {
          var x := Filter(t, p)[0];
          assert multiset(Filter(t, p))[x] > 0;
          assert x in multiset(t);
          var k :| 0 <= k < |t| && t[k] == x;
          assert p(s[k + 1]);
          forall j ensures !OnlyAt(s, p, j) {
            if j == 0 {
              assert !OnlyAt(s, p, 0) by { assert k + 1 != 0; }
            }
          }
        }
      } else {
        forall j | OnlyAt(s, p, j) ensures j >= 1 && OnlyAt(t, p, j - 1) {
          forall k | 0 <= k < |t| && k != j - 1 ensures !p(t[k]) {
            assert t[k] == s[k + 1];
          }
        }
        if exists j :: OnlyAt(t, p, j) {
          var j :| OnlyAt(t, p, j);
          assert OnlyAt(s, p, j + 1) by {
            forall k | 0 <= k < |s| && k != j + 1 ensures !p(s[k]) {
              if k > 0 { assert s[k] == t[k - 1]; }
            }
          }
        }
      }
    }
  }
}
