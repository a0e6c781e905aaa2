/**
 Linked lists that end in a null link: a link field is a map, and no key means null.
 */
module Chains {
  import opened Basics
  import opened Lists

  function Link(m: map<nat, nat>, b: nat): Option<nat> {
    if b in m then Some(m[b]) else None
  }

  /** Stores a link, or null. */
  function SetLink(m: map<nat, nat>, b: nat, v: Option<nat>): map<nat, nat> {
    match v
    case Some(x) => m[b := x]
    case None => m - {b}
  }

  function Head(l: seq<nat>): Option<nat> {
    if l == [] then None else Some(l[0])
  }

  function Behind(l: seq<nat>, i: nat): Option<nat> {
    if i + 1 < |l| then Some(l[i + 1]) else None
  }

  function Before(l: seq<nat>, i: nat): Option<nat> {
    if 0 < i <= |l| then Some(l[i - 1]) else None
  }

  predicate NextOk(next: map<nat, nat>, l: seq<nat>, i: nat) {
    i < |l| ==> Link(next, l[i]) == Behind(l, i)
  }

  predicate PrevOk(prev: map<nat, nat>, l: seq<nat>, i: nat) {
    i < |l| ==> Link(prev, l[i]) == Before(l, i)
  }

  /** Following next from the head of l reads l and ends. */
  ghost predicate Reads(next: map<nat, nat>, l: seq<nat>) {
    Distinct(l) && forall i: nat :: NextOk(next, l, i)
  }

  /** The list l is linked in both directions. */
  ghost predicate Chain(next: map<nat, nat>, prev: map<nat, nat>, l: seq<nat>) {
    Reads(next, l) && forall i: nat :: PrevOk(prev, l, i)
  }
}
