/**
  Doubly linked lists as they are threaded through the entries of a table: what the neighbours of an
  entry are, in terms of the order of the list.
*/
module Links {
  import opened Wire

  type Id = nat

  /** The entry at position `i`, if there is one. */
  ghost function Neighbour(order: seq<Id>, i: int): Option<Id> {
    if 0 <= i < |order| then Some(order[i]) else None
  }

  ghost predicate Distinct(order: seq<Id>) {
    forall i, j :: 0 <= i < j < |order| ==> order[i] != order[j]
  }

  ghost function Members(order: seq<Id>): set<Id> { set e | e in order }

  /** Only position `i` holds the entry that it holds. */
  lemma NeighbourIs(order: seq<Id>, i: nat, j: int)
    requires Distinct(order) && i < |order|
    ensures Neighbour(order, j) == Some(order[i]) <==> j == i
  {
  }
}
