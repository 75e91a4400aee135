/**
 * The PostgreSQL database the backend talks to: the `items` and `bids`
 * tables and the two SERIAL sequences that number their rows. Every SQL
 * statement of the model is one assignment to a field of this object.
 */
module Store {
  import opened Rows

  class Database {
    var items: seq<Item>
    var bids: seq<Bid>
    /** The next value `nextval` of the items id sequence hands out. */
    var itemSeq: int
    /** The next value `nextval` of the bids id sequence hands out. */
    var bidSeq: int

    /**
     * The primary keys hold and every stored id was drawn from its
     * sequence, which starts at 1.
     */
    ghost predicate Valid()
      reads this
    {
      && UniqueIds(items)
      && 1 <= itemSeq && 1 <= bidSeq
      && (forall i :: 0 <= i < |items| ==> 0 < items[i].id < itemSeq)
      && (forall k :: 0 <= k < |bids| ==> 0 < bids[k].id < bidSeq)
    }

    constructor (items0: seq<Item>, bids0: seq<Bid>, itemSeq0: int, bidSeq0: int)
      requires UniqueIds(items0) && 1 <= itemSeq0 && 1 <= bidSeq0
      requires forall i :: 0 <= i < |items0| ==> 0 < items0[i].id < itemSeq0
      requires forall k :: 0 <= k < |bids0| ==> 0 < bids0[k].id < bidSeq0
      ensures Valid()
      ensures items == items0 && bids == bids0 && itemSeq == itemSeq0 && bidSeq == bidSeq0
    {
      items, bids, itemSeq, bidSeq := items0, bids0, itemSeq0, bidSeq0;
    }
  }
}
