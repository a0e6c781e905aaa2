/**
 Circular and plain linked lists as sequences written from the head.
 */
module Lists {

  predicate Distinct(l: seq<nat>) {
    forall i, j :: 0 <= i < j < |l| ==> l[i] != l[j]
  }

  /** A new entry goes right behind the head. */
  function Insert(l: seq<nat>, p: nat): seq<nat> {
    if l == [] then [p] else [l[0], p] + l[1..]
  }

  /** The list with the first occurrence of p unlinked. */
  function Without(l: seq<nat>, p: nat): seq<nat> {
    if l == [] then [] else if l[0] == p then l[1..] else [l[0]] + Without(l[1..], p)
  }

  lemma InsertMeaning(l: seq<nat>, p: nat)
    ensures forall q :: q in Insert(l, p) <==> q in l || q == p
    ensures Distinct(l) && p !in l ==> Distinct(Insert(l, p))
    ensures |Insert(l, p)| == |l| + 1
  {
    if l != [] {
      assert l == [l[0]] + l[1..];
    }
  }

  lemma {:induction false} WithoutMeaning(l: seq<nat>, p: nat)
    requires Distinct(l)
    ensures Distinct(Without(l, p))
    ensures forall q :: q in Without(l, p) <==> q in l && q != p
    ensures |Without(l, p)| == |l| - (if p in l then 1 else 0)
  {
    if l != [] {
      assert l == [l[0]] + l[1..];
      WithoutMeaning(l[1..], p);
      if l[0] != p {
        var w := Without(l[1..], p);
        assert l[0] !in l[1..];
        assert forall i :: 0 <= i < |w| ==> w[i] in w;
      }
    }
  }

  lemma {:induction false} WithoutAt(l: seq<nat>, i: nat)
    requires i < |l| && Distinct(l)
    ensures Without(l, l[i]) == l[..i] + l[i + 1..]
  {
    if i > 0 {
      WithoutAt(l[1..], i - 1);
      assert l[1..][i - 1] == l[i];
    }
  }

  lemma {:induction false} DistinctMultiplicity(l: seq<nat>, p: nat)
    requires Distinct(l)
    ensures multiset(l)[p] == if p in l then 1 else 0
  {
    if l != [] {
      assert l == [l[0]] + l[1..];
      DistinctMultiplicity(l[1..], p);
      assert l[0] !in l[1..];
    }
  }

  lemma {:induction false} WithoutAbsent(l: seq<nat>, p: nat)
    requires p !in l
    ensures Without(l, p) == l
  {
    if l != [] { WithoutAbsent(l[1..], p); }
  }
}
