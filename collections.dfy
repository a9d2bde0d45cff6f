/** Facts about sequences used as duplicate-free lists. */
module Collections {

  ghost function Elems<T>(s: seq<T>): set<T>
  {
    set x | x in s
  }

  ghost predicate Distinct<T>(s: seq<T>)
  {
    forall i, j :: 0 <= i < j < |s| ==> s[i] != s[j]
  }

  /** The indices 0 .. n - 1. */
  ghost function Below(n: nat): (r: set<nat>)
    ensures forall x: nat :: x in r <==> x < n
  {
    if n == 0 then {} else Below(n - 1) + {n - 1}
  }

  lemma {:induction false} BelowCard(n: nat)
    ensures |Below(n)| == n
  {
    if n > 0 {
      BelowCard(n - 1);
    }
  }

  /** A duplicate-free list drawn from a finite set is no longer than the set,
      and has the set's size exactly when it lists every member. */
  lemma {:induction false} DistinctSubsetCard<T>(s: seq<T>, a: set<T>)
    requires Distinct(s)
    requires forall x :: x in s ==> x in a
    ensures |s| <= |a|
    ensures |s| == |a| <==> forall x :: x in a ==> x in s
  {
    if |s| == 0 {
      if |a| != 0 {
        var y :| y in a;
      }
    } else {
      var x, rest := s[0], s[1..];
      assert x in a;
      forall y | y in rest
        ensures y in a - {x}
      {
        var j :| 0 <= j < |rest| && rest[j] == y;
        assert s[j + 1] == y;
      }
      assert Distinct(rest) by {
        forall i, j | 0 <= i < j < |rest|
          ensures rest[i] != rest[j]
        {
          assert rest[i] == s[i + 1] && rest[j] == s[j + 1];
        }
      }
      DistinctSubsetCard(rest, a - {x});
      assert |a - {x}| == |a| - 1;
      if forall y :: y in a ==> y in s {
        forall y | y in a - {x}
          ensures y in rest
        {
          assert y in s && y != s[0];
          var j :| 0 <= j < |s| && s[j] == y;
          assert rest[j - 1] == y;
        }
      }
      if |s| == |a| {
        forall y | y in a
          ensures y in s
        {
          if y != x {
            assert y in rest;
          }
        }
      }
    }
  }
}
