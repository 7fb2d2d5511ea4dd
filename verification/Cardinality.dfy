/** Sizes of finite sets, for counting arguments. */
module Cardinality {

  lemma {:induction false} SubsetSize<T>(a: set<T>, b: set<T>)
    requires a <= b
    ensures |a| <= |b|
  {
    if a != {} {
      var x :| x in a;
      SubsetSize(a - {x}, b - {x});
    }
  }

  ghost function Indices(n: nat): set<nat> {
    set i: nat {:trigger i in Indices(n)} | i < n
  }

  lemma {:induction false} IndicesSize(n: nat)
    ensures |Indices(n)| == n
  {
    if n > 0 {
      IndicesSize(n - 1);
      assert Indices(n) == Indices(n - 1) + {n - 1};
    }
  }

  ghost predicate Distinct<T>(s: seq<T>) {
    forall i, j | 0 <= i < j < |s| :: s[i] != s[j]
  }

  lemma {:induction false} DistinctSize<T>(s: seq<T>)
    requires Distinct(s)
    ensures |set x | x in s| == |s|
  {
    if s != [] {
      var n := |s| - 1;
      DistinctSize(s[..n]);
      assert (set x | x in s) == (set x | x in s[..n]) + {s[n]};
    }
  }

  /** Distinct numbers below n are fewer than n exactly when they leave one out. */
  lemma {:induction false} MissingOne(s: seq<nat>, n: nat, b: nat)
    requires Distinct(s) && (forall i | 0 <= i < |s| :: s[i] < n) && b < n && b !in s
    ensures |s| < n
  {
    var t := set x | x in s;
    DistinctSize(s);
    IndicesSize(n);
    SubsetSize(t + {b}, Indices(n));
  }

  /** Distinct numbers that are all those below n but one. */
  lemma {:induction false} AllButOne(s: seq<nat>, n: nat, b: nat)
    requires Distinct(s) && b < n && forall c: nat :: c in s <==> c < n && c != b
    ensures |s| == n - 1
  {
    var t := set x | x in s;
    DistinctSize(s);
    IndicesSize(n);
    assert t + {b} == Indices(n);
    assert b !in t;
  }
}
