/** The Option wrapper used for optional request parameters and nullable lookups. */
module Wrappers {
  datatype Option<+T> = None | Some(value: T)
}

/**
 * A payment (payout) row, reduced to the columns the payouts API reads, and
 * the order in which the API lists rows: ORDER BY created_at DESC, id DESC.
 */
module PaymentModel {

  /** One row of the payments table. `createdAt` is the timestamp in any fixed unit. */
  datatype Payment = Payment(id: nat, owner: nat, displayable: bool, createdAt: int)

  /** A position in the listing: the (created_at, id) pair a page key encodes. */
  datatype Cursor = Cursor(createdAt: int, id: nat)

  /** The position of a row: its own (created_at, id). */
  function KeyOf(p: Payment): Cursor {
    Cursor(p.createdAt, p.id)
  }

  /** `a` is listed no later than `b` under ORDER BY created_at DESC, id DESC. */
  predicate Precedes(a: Payment, b: Payment) {
    a.createdAt > b.createdAt || (a.createdAt == b.createdAt && a.id >= b.id)
  }

  /** Rows in listing order: each row is listed no later than every row after it. */
  ghost predicate SortedDesc(s: seq<Payment>) {
    forall i, j :: 0 <= i < j < |s| ==> Precedes(s[i], s[j])
  }

  /** No two positions of `s` hold the same primary key. */
  ghost predicate UniqueIds(s: seq<Payment>) {
    forall i, j :: 0 <= i < j < |s| ==> s[i].id != s[j].id
  }

  /** Ids were handed out in created_at order: a larger id never has an earlier timestamp. */
  ghost predicate IdsFollowCreation(s: seq<Payment>) {
    forall a, b :: a in s && b in s && a.id < b.id ==> a.createdAt <= b.createdAt
  }

  /** The listing order is total and transitive, so it is a total preorder on rows. */
  lemma PrecedesIsTotalPreorder(a: Payment, b: Payment, c: Payment)
    ensures Precedes(a, a)
    ensures Precedes(a, b) || Precedes(b, a)
    ensures Precedes(a, b) && Precedes(b, c) ==> Precedes(a, c)
    ensures Precedes(a, b) && Precedes(b, a) <==> KeyOf(a) == KeyOf(b)
  {
  }
}
