/**
 Circular doubly linked lists as the source keeps them: two link fields per element, read by
 following next from the head until the head comes round again.
 */
module Rings {
  import opened Lists

  datatype Links = Links(next: map<nat, nat>, prev: map<nat, nat>)

  function Succ(l: seq<nat>, i: nat): nat
    requires i < |l|
  {
    if i + 1 < |l| then l[i + 1] else l[0]
  }

  function Pred(l: seq<nat>, i: nat): nat
    requires i < |l|
  {
    if i > 0 then l[i - 1] else l[|l| - 1]
  }

  predicate NextOk(next: map<nat, nat>, l: seq<nat>, i: nat) {
    i < |l| ==> l[i] in next && next[l[i]] == Succ(l, i)
  }

  predicate PrevOk(prev: map<nat, nat>, l: seq<nat>, i: nat) {
    i < |l| ==> l[i] in prev && prev[l[i]] == Pred(l, i)
  }

  /** Following next from l[0] reads exactly l. */
  ghost predicate Reads(next: map<nat, nat>, l: seq<nat>) {
    l != [] && Distinct(l) && forall i: nat :: NextOk(next, l, i)
  }

  ghost predicate Ring(k: Links, l: seq<nat>) {
    Reads(k.next, l) && forall i: nat :: PrevOk(k.prev, l, i)
  }

  /** What is read from one head is one list. */
  lemma {:induction false} SamePrefix(next: map<nat, nat>, l: seq<nat>, l': seq<nat>, i: nat)
    requires Reads(next, l) && Reads(next, l') && l[0] == l'[0] && i < |l| && i < |l'|
    ensures l[i] == l'[i]
  {
    if i > 0 {
      SamePrefix(next, l, l', i - 1);
      assert NextOk(next, l, i - 1) && NextOk(next, l', i - 1);
    }
  }

  lemma ReadsOnce(next: map<nat, nat>, l: seq<nat>, l': seq<nat>)
    requires Reads(next, l) && Reads(next, l') && l[0] == l'[0]
    ensures l == l'
  {
    NotLonger(next, l, l');
    NotLonger(next, l', l);
    forall i | 0 <= i < |l| ensures l[i] == l'[i] {
      SamePrefix(next, l, l', i);
    }
  }

  lemma NotLonger(next: map<nat, nat>, l: seq<nat>, l': seq<nat>)
    requires Reads(next, l) && Reads(next, l') && l[0] == l'[0]
    ensures |l| <= |l'|
  {
    if |l| > |l'| {
      var i := |l'| - 1;
      SamePrefix(next, l, l', i);
      NotAtEnd(next, l, i);
      AtEnd(next, l');
      assert false;
    }
  }

  lemma AtEnd(next: map<nat, nat>, l: seq<nat>)
    requires Reads(next, l)
    ensures l[|l| - 1] in next && next[l[|l| - 1]] == l[0]
  {
    assert NextOk(next, l, |l| - 1);
  }

  lemma NotAtEnd(next: map<nat, nat>, l: seq<nat>, i: nat)
    requires Reads(next, l) && i + 1 < |l|
    ensures l[i] in next && next[l[i]] != l[0]
  {
    assert NextOk(next, l, i);
  }

  /** Bending the link before entry i to the one behind it leaves the list without entry i. */
  lemma SkipOne(next: map<nat, nat>, l: seq<nat>, i: nat)
    requires Reads(next, l) && 0 < i < |l|
    ensures Without(l, l[i]) == l[..i] + l[i + 1..]
    ensures Reads(next[l[i - 1] := Succ(l, i)], Without(l, l[i]))
  {
    WithoutAt(l, i);
    WithoutMeaning(l, l[i]);
    var w, next' := Without(l, l[i]), next[l[i - 1] := Succ(l, i)];
    forall j: nat ensures NextOk(next', w, j) {
      assert NextOk(next, l, if j < i then j else j + 1);
    }
  }
}
