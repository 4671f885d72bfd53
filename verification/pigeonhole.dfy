/** Finite counting: an injection of a range into itself reaches every value. */
module Pigeonhole {

  ghost predicate Injective(s: seq<int>) {
    forall i, j :: 0 <= i < j < |s| ==> s[i] != s[j]
  }

  ghost function Range(n: nat): (r: set<int>)
    ensures |r| == n
    ensures forall v :: v in r <==> 0 <= v < n
  {
    if n == 0 then {} else Range(n - 1) + {n - 1}
  }

  ghost function Elements(s: seq<int>): (r: set<int>)
    ensures forall v :: v in r <==> v in s
  {
    set v | v in s
  }

  lemma {:induction false} InjectiveSize(s: seq<int>)
    requires Injective(s)
    ensures |Elements(s)| == |s|
  {
    if s == [] {
      assert Elements(s) == {};
    } else {
      var last := |s| - 1;
      InjectiveSize(s[..last]);
      assert s == s[..last] + [s[last]];
      assert Elements(s) == Elements(s[..last]) + {s[last]};
    }
  }

  lemma SubsetSize<T>(a: set<T>, b: set<T>)
    requires a <= b && |a| == |b|
    ensures a == b
  {
    if b - a == {} {
    } else {
      var v :| v in b - a;
      SubsetSmaller(a, b - {v});
    }
  }

  lemma {:induction false} SubsetSmaller<T>(a: set<T>, b: set<T>)
    requires a <= b
    ensures |a| <= |b|
    decreases a
  {
    if a == {} {
    } else {
      var v :| v in a;
      SubsetSmaller(a - {v}, b - {v});
    }
  }

  lemma {:induction false} BelowSize(s: set<nat>, n: nat)
    requires forall v :: v in s ==> v < n
    ensures |s| <= n
  {
    if n > 0 {
      BelowSize(s - {n - 1}, n - 1);
    }
  }

  /** n distinct values below n are all the values below n. */
  lemma InjectionCovers(s: seq<int>, v: int)
    requires Injective(s)
    requires forall i :: 0 <= i < |s| ==> 0 <= s[i] < |s|
    requires 0 <= v < |s|
    ensures v in s
  {
    InjectiveSize(s);
    SubsetSize(Elements(s), Range(|s|));
  }
}
