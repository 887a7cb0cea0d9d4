/** Counting the elements of finite sets. */
module Sets {
  function Range(n: nat): (r: set<nat>)
    ensures |r| == n && forall i: nat :: i in r <==> i < n
  {
    if n == 0 then {} else Range(n - 1) + {n - 1}
  }

  predicate Injective(p: seq<nat>) {
    forall i, j | 0 <= i < j < |p| :: p[i] != p[j]
  }

  lemma {:induction false} ValuesOfInjective(p: seq<nat>) returns (values: set<nat>)
    requires Injective(p)
    ensures |values| == |p| && forall x :: x in values <==> x in p
  {
    if p == [] {
      values := {};
    } else {
      var last := |p| - 1;
      assert p == p[..last] + [p[last]];
      var most := ValuesOfInjective(p[..last]);
      values := most + {p[last]};
    }
  }

  lemma {:induction false} SubsetSize(a: set<nat>, b: set<nat>)
    requires a <= b
    ensures |a| <= |b|
    ensures |a| == |b| ==> a == b
  {
    if a != {} {
      var x :| x in a;
      SubsetSize(a - {x}, b - {x});
      assert a == (a - {x}) + {x} && b == (b - {x}) + {x};
    }
  }

  /** Distinct numbers below n: there are at most n, and n of them are all. */
  lemma PigeonHole(p: seq<nat>, n: nat)
    requires Injective(p) && forall i :: 0 <= i < |p| ==> p[i] < n
    ensures |p| <= n
    ensures |p| == n ==> forall x: nat :: x < n ==> x in p
  {
    var values := ValuesOfInjective(p);
    SubsetSize(values, Range(n));
  }

  lemma Growth(before: set<nat>, after: set<nat>)
    ensures |after| <= |before| + |after - before|
  {
    SubsetSize(after, before + (after - before));
    assert before !! (after - before);
  }

  /** What is left when some are gone and others have come. */
  lemma Drain(before: set<nat>, gone: set<nat>, after: set<nat>)
    requires gone <= before && gone !! after
    ensures |after| <= |before| - |gone| + |after - before|
  {
    Growth(before - gone, after);
    assert |before| == |before - gone| + |gone| by { assert before == (before - gone) + gone; }
    assert after - (before - gone) == after - before;
  }
}
