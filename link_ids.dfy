/** Link identifiers: the sorted pair of the two endpoints' printed names. */
module LinkIds {

  /** Python's `<` on strings: lexicographic by code point, a proper prefix
      comes first. */
  predicate LexLt(a: string, b: string): (r: bool)
    ensures r ==> a != b
    ensures |a| < |b| && a == b[..|a|] ==> r
  {
    if |a| == 0 then |b| > 0
    else if |b| == 0 then false
    else a[0] < b[0] || (a[0] == b[0] && LexLt(a[1..], b[1..]))
  }

  lemma {:induction false} LexLtAsymmetric(a: string, b: string)
    requires LexLt(a, b)
    ensures !LexLt(b, a)
  {
    if |a| > 0 && |b| > 0 && a[0] == b[0] {
      LexLtAsymmetric(a[1..], b[1..]);
    }
  }

  lemma {:induction false} LexLtTrichotomy(a: string, b: string)
    ensures LexLt(a, b) || LexLt(b, a) || a == b
  {
    if |a| > 0 && |b| > 0 && a[0] == b[0] {
      LexLtTrichotomy(a[1..], b[1..]);
      assert a == [a[0]] + a[1..];
      assert b == [b[0]] + b[1..];
    }
  }

  /** `sorted((x, y))`: the same two names, the smaller one first. */
  function SortedPair(x: string, y: string): (p: (string, string))
    ensures multiset{p.0, p.1} == multiset{x, y}
    ensures !LexLt(p.1, p.0)
  {
    if LexLt(y, x) then LexLtAsymmetric(y, x); (y, x) else (x, y)
  }

  /** Sorting a pair does not depend on the order the pair was given in. */
  lemma SortedPairSymmetric(x: string, y: string)
    ensures SortedPair(x, y) == SortedPair(y, x)
  {
    LexLtTrichotomy(x, y);
    if LexLt(x, y) {
      LexLtAsymmetric(x, y);
    } else if LexLt(y, x) {
      LexLtAsymmetric(y, x);
    }
  }

  /** `str(node)` for a node with the given id. */
  function NodeLabel(id: string): (r: string)
    ensures |r| == |id| + 5 && r[..5] == "Node " && r[5..] == id
  {
    "Node " + id
  }

  /** The id of a link between nodes printed as `a` and `b`. */
  function LinkId(a: string, b: string): (r: string)
    ensures (r == a + "/" + b && !LexLt(b, a)) || (r == b + "/" + a && !LexLt(a, b))
  {
    var p := SortedPair(a, b);
    p.0 + "/" + p.1
  }

  /** Different room ids print as different names. */
  lemma NodeLabelInjective(a: string, b: string)
    requires NodeLabel(a) == NodeLabel(b)
    ensures a == b
  {
    assert a == NodeLabel(a)[5..];
  }

  /** A link's id names the sorted pair of its endpoints, so it is the same
      whichever endpoint is given first. */
  lemma LinkIdSymmetric(a: string, b: string)
    ensures LinkId(a, b) == LinkId(b, a)
    ensures exists lo, hi :: multiset{lo, hi} == multiset{a, b} && !LexLt(hi, lo) && LinkId(a, b) == lo + "/" + hi
  {
    SortedPairSymmetric(a, b);
    var p := SortedPair(a, b);
    assert multiset{p.0, p.1} == multiset{a, b} && !LexLt(p.1, p.0) && LinkId(a, b) == p.0 + "/" + p.1;
  }
}
