/**
 * The once-a-minute cron job: select the ids of the active items whose end
 * time has passed, then end each of them with its own guarded UPDATE. It
 * only ever writes `status`; it picks no winner.
 */
module AuctionCloser {
  import opened Wrappers
  import opened Rows
  import opened Store
  import AuctionQueue

  /** `status = 'active' AND end_time <= NOW()` */
  predicate Expired(r: Item, now: int) {
    r.status == Active && r.endTime <= now
  }

  function ExpiredRows(items: seq<Item>, now: int): seq<Item> {
    Filter(items, (r: Item) => Expired(r, now))
  }

  /** `SELECT id FROM items WHERE status = 'active' AND end_time <= NOW()` */
  function SelectExpired(items: seq<Item>, now: int): seq<ItemId> {
    IdsOf(ExpiredRows(items, now))
  }

  /** `UPDATE items SET status = 'ended' WHERE id = $1 AND status = 'active'` */
  function EndIfActive(items: seq<Item>, id: ItemId): seq<Item> {
    seq(|items|, i requires 0 <= i < |items| =>
      if items[i].id == id && items[i].status == Active then items[i].(status := Ended) else items[i])
  }

  /** The table after one run of the cron job: every expired row is ended. */
  function CloseAllExpired(items: seq<Item>, now: int): seq<Item> {
    seq(|items|, i requires 0 <= i < |items| =>
      if Expired(items[i], now) then items[i].(status := Ended) else items[i])
  }

  /**
   * The selection holds exactly the ids of the expired rows, each once;
   * it is empty exactly when nothing has expired.
   */
  lemma SelectExpiredSpec(items: seq<Item>, now: int)
    requires UniqueIds(items)
    ensures var ids := SelectExpired(items, now);
      && Distinct(ids)
      && (forall i :: 0 <= i < |items| ==> (items[i].id in ids <==> Expired(items[i], now)))
      && (forall id :: id in ids ==> exists i :: 0 <= i < |items| && items[i].id == id)
      && (ids == [] <==> forall i :: 0 <= i < |items| ==> !Expired(items[i], now))
  {
    var f := ExpiredRows(items, now);
    var ids := SelectExpired(items, now);
    UniqueIdsDistinct(f);
    forall i | 0 <= i < |items| ensures items[i].id in ids <==> Expired(items[i], now) {
      if Expired(items[i], now) {
        assert items[i] in f;
        var j :| 0 <= j < |f| && f[j] == items[i];
        assert ids[j] == items[i].id;
      }
      if items[i].id in ids {
        var j :| 0 <= j < |ids| && ids[j] == items[i].id;
        assert f[j] in f;
        var p :| 0 <= p < |items| && items[p] == f[j];
        assert items[p].id == items[i].id;
      }
    }
    forall id | id in ids ensures exists i :: 0 <= i < |items| && items[i].id == id {
      var j :| 0 <= j < |ids| && ids[j] == id;
      assert f[j] in f;
      var p :| 0 <= p < |items| && items[p] == f[j];
    }
    if ids != [] {
      var j := 0;
      assert f[j] in f;
      var p :| 0 <= p < |items| && items[p] == f[j];
      assert Expired(items[p], now);
    }
  }

  /** The table after the UPDATEs for `ids` have run: those rows are ended. */
  function EndSelected(items: seq<Item>, ids: seq<ItemId>): seq<Item> {
    seq(|items|, i requires 0 <= i < |items| =>
      if items[i].id in ids then items[i].(status := Ended) else items[i])
  }

  /**
   * How many UPDATEs complete before a statement throws. `fault` numbers the
   * statement that throws, if any: 0 is the SELECT, `j + 1` the UPDATE of
   * the `j`-th selected id; a number past the last UPDATE throws nothing.
   */
  function UpdatesBeforeFault(fault: Option<nat>, selected: nat): (n: nat)
    ensures n <= selected
    ensures fault.None? ==> n == selected
    ensures fault.Some? && fault.value > selected ==> n == selected
    ensures fault == Some(0) ==> n == 0
    ensures fault.Some? && 0 < fault.value <= selected ==> n == fault.value - 1
  {
    match fault
    case None => selected
    case Some(k) => if k == 0 then 0 else if k - 1 < selected then k - 1 else selected
  }

  /**
   * The cron callback, with the statement that throws, if any. An empty
   * selection issues no UPDATE; otherwise one guarded UPDATE per selected
   * id, in order. The `catch` swallows a throw: the UPDATEs already issued
   * stay applied, the rest of the selected rows stay active, and the
   * callback returns normally. `updates` counts the UPDATEs that completed.
   */
  method CloseExpiredAuctions(db: Database, now: int, fault: Option<nat>) returns (updates: nat)
    requires db.Valid()
    modifies db
    ensures db.Valid()
    ensures db.bids == old(db.bids) && db.itemSeq == old(db.itemSeq) && db.bidSeq == old(db.bidSeq)
    ensures updates == UpdatesBeforeFault(fault, |SelectExpired(old(db.items), now)|)
    ensures db.items == EndSelected(old(db.items), SelectExpired(old(db.items), now)[..updates])
    ensures fault == Some(0) ==> db.items == old(db.items)
    ensures fault.None? ==> db.items == CloseAllExpired(old(db.items), now)
  {
    ghost var items0 := db.items;
    if fault == Some(0) {
      // the SELECT throws
      assert db.items == EndSelected(items0, []);
      return 0;
    }
    var expiredItems := SelectExpired(db.items, now);
    SelectExpiredSpec(items0, now);
    EndAllSelectedIsClose(items0, now);
    updates := 0;
    if |expiredItems| == 0 {
      assert expiredItems[..0] == expiredItems;
      return;
    }
    var k := 0;
    while k < |expiredItems|
      invariant 0 <= k <= |expiredItems| && updates == k
      invariant fault.Some? && 0 < fault.value ==> k < fault.value
      invariant db.bids == old(db.bids) && db.itemSeq == old(db.itemSeq) && db.bidSeq == old(db.bidSeq)
      invariant db.items == EndSelected(items0, expiredItems[..k])
    {
      if fault == Some(k + 1) {
        // this UPDATE throws
        assert SameIds(items0, db.items);
        return;
      }
      db.items := EndIfActive(db.items, expiredItems[k]);
      forall i | 0 <= i < |items0|
        ensures db.items[i] == EndSelected(items0, expiredItems[..k + 1])[i]
      {
        assert expiredItems[..k + 1] == expiredItems[..k] + [expiredItems[k]];
        if items0[i].id == expiredItems[k] {
          assert items0[i].id !in expiredItems[..k];
        }
      }
      updates := updates + 1;
      k := k + 1;
    }
    assert SameIds(items0, db.items);
  }

  /** Issuing the UPDATE of every selected id is the whole close. */
  lemma EndAllSelectedIsClose(items: seq<Item>, now: int)
    requires UniqueIds(items)
    ensures EndSelected(items, SelectExpired(items, now)) == CloseAllExpired(items, now)
  {
    SelectExpiredSpec(items, now);
  }

  /**
   * A run cut short by a throw is finished by the next run: every row the
   * first run selected but left active is then ended, with the rest of the
   * table as a single full run would leave it.
   */
  lemma NextRunFinishesPartialClose(items: seq<Item>, now: int, later: int, done: nat)
    requires UniqueIds(items) && now <= later
    requires done <= |SelectExpired(items, now)|
    ensures CloseAllExpired(EndSelected(items, SelectExpired(items, now)[..done]), later)
         == CloseAllExpired(items, later)
  {
    var ids := SelectExpired(items, now);
    SelectExpiredSpec(items, now);
    var partial := EndSelected(items, ids[..done]);
    forall i | 0 <= i < |items|
      ensures CloseAllExpired(partial, later)[i] == CloseAllExpired(items, later)[i]
    {
      if items[i].id in ids[..done] {
        assert items[i].id in ids;
      }
    }
  }

  // ---------------------------------------------------------------------
  // What one run promises
  // ---------------------------------------------------------------------

  /**
   * After a run no row is expired any more; selected rows are ended, the
   * others are exactly as before, and of a selected row only `status` changed.
   */
  lemma CloseAllExpiredEffect(items: seq<Item>, now: int)
    ensures var r := CloseAllExpired(items, now);
      && |r| == |items|
      && (forall i :: 0 <= i < |items| ==> !Expired(r[i], now))
      && (forall i :: 0 <= i < |items| && Expired(items[i], now) ==> r[i].status == Ended)
      && (forall i :: 0 <= i < |items| && !Expired(items[i], now) ==> r[i] == items[i])
      && (forall i :: 0 <= i < |items| ==> r[i].(status := items[i].status) == items[i])
  {
  }

  /** A second run over the same table selects nothing and changes nothing. */
  lemma CloseTwiceIsOnce(items: seq<Item>, now: int)
    requires UniqueIds(items)
    ensures SelectExpired(CloseAllExpired(items, now), now) == []
    ensures CloseAllExpired(CloseAllExpired(items, now), now) == CloseAllExpired(items, now)
  {
    var r := CloseAllExpired(items, now);
    assert SameIds(items, r);
    SelectExpiredSpec(r, now);
  }

  /** Two runs, the later at `now2`, do what the later run alone does. */
  lemma LaterRunSubsumes(items: seq<Item>, now1: int, now2: int)
    requires now1 <= now2
    ensures CloseAllExpired(CloseAllExpired(items, now1), now2) == CloseAllExpired(items, now2)
  {
  }

  /**
   * The cron job and the queue worker race for the same rows. Once the cron
   * job has run at a time past the item's end, the worker's compare-and-swap
   * finds nothing, so the item never receives a winner or a pending payment.
   */
  lemma CloserPreemptsWorker(items: seq<Item>, bids: seq<Bid>, itemId: ItemId, now: int,
                             later: int, users: UserId -> AuctionQueue.Lookup)
    requires forall i :: 0 <= i < |items| && items[i].id == itemId ==> items[i].endTime <= now
    ensures var closed := CloseAllExpired(items, now);
      AuctionQueue.Expire(closed, bids, itemId, later, users) == AuctionQueue.Expiry(closed, AuctionQueue.NotDue)
  {
    var closed := CloseAllExpired(items, now);
    forall i | 0 <= i < |closed| ensures !AuctionQueue.Due(closed[i], itemId, later) {
    }
    AuctionQueue.NoDueRowsNoneDue(closed, itemId, later);
  }
}
