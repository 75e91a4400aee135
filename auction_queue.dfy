/**
 * The BullMQ close-on-expiry machinery: scheduling a delayed job per item,
 * the worker that closes an expired auction and picks its winner, and the
 * start-up sync that re-schedules every active auction in batches.
 */
module AuctionQueue {
  import opened Wrappers
  import opened Rows
  import opened Text
  import opened Store

  // ---------------------------------------------------------------------
  // The queue: a map from job id to job.
  // ---------------------------------------------------------------------

  /** A job still waiting (delayed or ready), or one whose handler threw. */
  datatype JobState = Waiting | Failed

  datatype Job = Job(itemId: ItemId, fireAt: int, state: JobState)

  /** The de-duplication key `auction-<id>`. */
  function JobKey(itemId: ItemId): string {
    "auction-" + IntToString(itemId)
  }

  /** Different items never share a job id. */
  lemma JobKeyInjective(a: ItemId, b: ItemId)
    requires JobKey(a) == JobKey(b)
    ensures a == b
  {
    PrefixedIntInjective("auction-", a, b);
  }

  /** `queue.add` with a `jobId`: a job whose id is already held is ignored. */
  function AddJob(jobs: map<string, Job>, key: string, job: Job): (r: map<string, Job>)
    ensures key in r && r.Keys == jobs.Keys + {key}
    ensures key in jobs ==> r == jobs
    ensures key !in jobs ==> r[key] == job && forall k :: k in jobs ==> r[k] == jobs[k]
  {
    if key in jobs then jobs else jobs[key := job]
  }

  /** Adding under the same id while the first job is held keeps exactly the first job. */
  lemma ReAddKeepsFirst(jobs: map<string, Job>, key: string, first: Job, second: Job)
    requires key !in jobs
    ensures AddJob(AddJob(jobs, key, first), key, second) == jobs[key := first]
  {
  }

  /** Once a completed job is removed (`removeOnComplete`) its id can be used again. */
  lemma ReAddAfterCompletion(jobs: map<string, Job>, key: string, first: Job, second: Job)
    ensures AddJob(AddJob(jobs, key, first) - {key}, key, second)[key] == second
  {
  }

  class JobQueue {
    var jobs: map<string, Job>

    constructor ()
      ensures jobs == map[]
    {
      jobs := map[];
    }

    method Add(key: string, job: Job) returns (added: bool)
      modifies this
      ensures added <==> key !in old(jobs)
      ensures jobs == AddJob(old(jobs), key, job)
    {
      added := key !in jobs;
      jobs := AddJob(jobs, key, job);
    }

    /** A handler that returned: the job is removed (`removeOnComplete: true`). */
    method Complete(key: string)
      modifies this
      ensures jobs == old(jobs) - {key}
    {
      jobs := jobs - {key};
    }

    /** A handler that threw: no `attempts` option is given, so the job stays, failed. */
    method Fail(key: string)
      requires key in jobs
      modifies this
      ensures jobs == old(jobs)[key := old(jobs)[key].(state := Failed)]
    {
      jobs := jobs[key := jobs[key].(state := Failed)];
    }
  }

  // ---------------------------------------------------------------------
  // scheduleAuctionEnd
  // ---------------------------------------------------------------------

  /** The delay until `endTime`, or 0 when that moment has passed. */
  function FinalDelay(endTime: int, now: int): (d: int)
    ensures d >= 0
    ensures now + d >= endTime
    ensures d == 0 || now + d == endTime
  {
    var delay := endTime - now;
    if delay > 0 then delay else 0
  }

  /** The moment the job becomes ready. */
  function FireTime(endTime: int, now: int): (t: int)
    ensures t == if endTime > now then endTime else now
  {
    now + FinalDelay(endTime, now)
  }

  method ScheduleAuctionEnd(q: JobQueue, itemId: ItemId, endTime: int, now: int)
    modifies q
    ensures q.jobs == AddJob(old(q.jobs), JobKey(itemId), Job(itemId, FireTime(endTime, now), Waiting))
  {
    var finalDelay := FinalDelay(endTime, now);
    var _ := q.Add(JobKey(itemId), Job(itemId, now + finalDelay, Waiting));
  }

  // ---------------------------------------------------------------------
  // The worker
  // ---------------------------------------------------------------------

  /** `User.findById`: a user with that e-mail address, `null`, or a thrown error. */
  datatype Lookup = Found(email: string) | NotFound | LookupError

  /**
   * How one run of the handler ends. All but Errored return normally;
   * WinnerNotified carries the arguments of `sendWinnerEmail`, which
   * catches its own failures and so never makes the job fail.
   */
  datatype JobOutcome =
    | NotDue
    | NoBids
    | WinnerUnknown
    | WinnerNotified(winner: UserId, email: string, itemName: string, amount: int)
    | Errored

  datatype Expiry = Expiry(items: seq<Item>, outcome: JobOutcome)

  /** The condition of the compare-and-swap UPDATE. */
  predicate Due(r: Item, itemId: ItemId, now: int) {
    r.id == itemId && r.status == Active && r.endTime <= now
  }

  /** The rows that UPDATE ... RETURNING * hands back. */
  function DueRows(items: seq<Item>, itemId: ItemId, now: int): seq<Item> {
    Filter(items, (r: Item) => Due(r, itemId, now))
  }

  /** `UPDATE items SET status = 'ended' WHERE id = $1 AND status = 'active' AND end_time <= NOW()` */
  function CloseDue(items: seq<Item>, itemId: ItemId, now: int): seq<Item> {
    seq(|items|, i requires 0 <= i < |items| =>
      if Due(items[i], itemId, now) then items[i].(status := Ended) else items[i])
  }

  /** `UPDATE items SET winner_id = $1, payment_status = 'pending' WHERE id = $2` */
  function AssignWinner(items: seq<Item>, itemId: ItemId, winner: UserId): seq<Item> {
    seq(|items|, i requires 0 <= i < |items| =>
      if items[i].id == itemId then items[i].(winnerId := Some(winner), paymentStatus := Pending)
      else items[i])
  }

  /** `SELECT * FROM bids WHERE item_id = $1 ORDER BY amount DESC LIMIT 1` */
  function HighestBid(bids: seq<Bid>, itemId: ItemId): (top: Option<Bid>)
    ensures top.None? <==> forall k :: 0 <= k < |bids| ==> bids[k].itemId != itemId
    ensures top.Some? ==> top.value in bids && top.value.itemId == itemId
    ensures top.Some? ==>
      forall k :: 0 <= k < |bids| && bids[k].itemId == itemId ==> bids[k].amount <= top.value.amount
  {
    if bids == [] then None
    else
      var rest := HighestBid(bids[1..], itemId);
      assert forall k :: 1 <= k < |bids| ==> bids[k] == bids[1..][k - 1];
      if bids[0].itemId != itemId then rest
      else if rest.Some? && rest.value.amount > bids[0].amount then rest
      else Some(bids[0])
  }

  /**
   * What one run of the handler does to the items table, and how it ends.
   * The winner written is the bid's `bidder_id`; the source writes the
   * `_id` of the user document found for it, which is the same string as
   * long as the user store hands back a document under the id it was
   * asked for, in its canonical form.
   */
  function Expire(items: seq<Item>, bids: seq<Bid>, itemId: ItemId, now: int,
                  users: UserId -> Lookup): Expiry
  {
    var returned := DueRows(items, itemId, now);
    if returned == [] then Expiry(items, NotDue)
    else
      var ended := CloseDue(items, itemId, now);
      match HighestBid(bids, itemId)
      case None => Expiry(ended, NoBids)
      case Some(b) =>
        match users(b.bidderId)
        case NotFound => Expiry(ended, WinnerUnknown)
        case LookupError => Expiry(ended, Errored)
        case Found(email) =>
          Expiry(AssignWinner(ended, itemId, b.bidderId),
                 WinnerNotified(b.bidderId, email, returned[0].name, b.amount))
  }

  lemma NoDueRowsNoneDue(items: seq<Item>, itemId: ItemId, now: int)
    ensures DueRows(items, itemId, now) == [] <==>
      forall i :: 0 <= i < |items| ==> !Due(items[i], itemId, now)
  {
    if DueRows(items, itemId, now) == [] {
      forall i | 0 <= i < |items| ensures !Due(items[i], itemId, now) {
        assert items[i] in items;
      }
    } else {
      var x := DueRows(items, itemId, now)[0];
      assert x in DueRows(items, itemId, now);
      var i :| 0 <= i < |items| && items[i] == x;
    }
  }

  /** The handler for job `auction-<itemId>`; each SQL statement is one step. */
  method ExpireItem(db: Database, itemId: ItemId, now: int, users: UserId -> Lookup)
    returns (outcome: JobOutcome)
    requires db.Valid()
    modifies db
    ensures db.Valid()
    ensures db.bids == old(db.bids) && db.itemSeq == old(db.itemSeq) && db.bidSeq == old(db.bidSeq)
    ensures Expiry(db.items, outcome) == Expire(old(db.items), old(db.bids), itemId, now, users)
  {
    // A. the conditional close
    var returned := DueRows(db.items, itemId, now);
    db.items := CloseDue(db.items, itemId, now);
    assert SameIds(old(db.items), db.items);
    if |returned| == 0 {
      NoDueRowsNoneDue(old(db.items), itemId, now);
      assert db.items == old(db.items);
      return NotDue;
    }
    var item := returned[0];
    // B. the winning bid
    var top := HighestBid(db.bids, itemId);
    if top.None? {
      return NoBids;
    }
    var winningBid := top.value;
    var winner := users(winningBid.bidderId);
    match winner
    case NotFound =>
      outcome := WinnerUnknown;
    case LookupError =>
      outcome := Errored;
    case Found(email) =>
      // C. the winner and the pending payment
      ghost var ended := db.items;
      db.items := AssignWinner(db.items, itemId, winningBid.bidderId);
      assert SameIds(ended, db.items);
      // D. the e-mail: sendWinnerEmail swallows its own errors
      outcome := WinnerNotified(winningBid.bidderId, email, item.name, winningBid.amount);
  }

  /** BullMQ hands a waiting job to the handler and settles it by how the handler ended. */
  method RunJob(q: JobQueue, db: Database, key: string, now: int, users: UserId -> Lookup)
    returns (outcome: JobOutcome)
    requires db.Valid()
    requires key in q.jobs && q.jobs[key].state == Waiting
    modifies q, db
    ensures db.Valid() && db.bids == old(db.bids)
    ensures db.itemSeq == old(db.itemSeq) && db.bidSeq == old(db.bidSeq)
    ensures Expiry(db.items, outcome) ==
      Expire(old(db.items), old(db.bids), old(q.jobs)[key].itemId, now, users)
    ensures q.jobs == if outcome == Errored
      then old(q.jobs)[key := old(q.jobs)[key].(state := Failed)]
      else old(q.jobs) - {key}
  {
    outcome := ExpireItem(db, q.jobs[key].itemId, now, users);
    if outcome == Errored {
      q.Fail(key);
    } else {
      q.Complete(key);
    }
  }

  // ---------------------------------------------------------------------
  // What the worker promises
  // ---------------------------------------------------------------------

  /** The handler writes only rows of its own item, and only status, winner and payment status. */
  lemma {:induction false} ExpireTouchesOnlyItsItem(items: seq<Item>, bids: seq<Bid>, itemId: ItemId,
                                  now: int, users: UserId -> Lookup)
    ensures var e := Expire(items, bids, itemId, now, users);
      && |e.items| == |items|
      && (forall i :: 0 <= i < |items| && items[i].id != itemId ==> e.items[i] == items[i])
      && (forall i :: 0 <= i < |items| ==>
            e.items[i].(status := items[i].status, winnerId := items[i].winnerId,
                        paymentStatus := items[i].paymentStatus) == items[i])
  {
    if DueRows(items, itemId, now) != [] {
      var ended := CloseDue(items, itemId, now);
      CloseDueLocal(items, itemId, now);
      var top := HighestBid(bids, itemId);
      if top.Some? && users(top.value.bidderId).Found? {
        AssignWinnerLocal(ended, itemId, top.value.bidderId);
        assert Expire(items, bids, itemId, now, users).items == AssignWinner(ended, itemId, top.value.bidderId);
      }
    }
  }

  /** The close writes only the status, and only of the item's own row. */
  lemma CloseDueLocal(items: seq<Item>, itemId: ItemId, now: int)
    ensures var r := CloseDue(items, itemId, now);
      && |r| == |items|
      && (forall i :: 0 <= i < |items| && items[i].id != itemId ==> r[i] == items[i])
      && (forall i :: 0 <= i < |items| ==> r[i].(status := items[i].status) == items[i])
  {
  }

  /** The winner assignment writes only winner and payment status, and only of the item's own row. */
  lemma AssignWinnerLocal(items: seq<Item>, itemId: ItemId, winner: UserId)
    ensures var r := AssignWinner(items, itemId, winner);
      && |r| == |items|
      && (forall i :: 0 <= i < |items| && items[i].id != itemId ==> r[i] == items[i])
      && (forall i :: 0 <= i < |items| ==>
            r[i].(winnerId := items[i].winnerId, paymentStatus := items[i].paymentStatus) == items[i])
  {
  }

  /**
   * The compare-and-swap: unless a row of the item is active and past its end
   * time, the handler returns and changes nothing, neither winner nor payment.
   */
  lemma ExpireOnlyWhenDue(items: seq<Item>, bids: seq<Bid>, itemId: ItemId, now: int,
                          users: UserId -> Lookup)
    ensures var e := Expire(items, bids, itemId, now, users);
      (e.outcome == NotDue <==> forall i :: 0 <= i < |items| ==> !Due(items[i], itemId, now))
      && (e.outcome == NotDue ==> e.items == items)
  {
    NoDueRowsNoneDue(items, itemId, now);
  }

  /**
   * How each row ends up: a due row is ended, and receives a winner and a
   * pending payment exactly when the winner was notified; other rows stay.
   */
  lemma ExpireRowEffect(items: seq<Item>, bids: seq<Bid>, itemId: ItemId, now: int,
                        users: UserId -> Lookup, i: int)
    requires UniqueIds(items) && 0 <= i < |items|
    ensures var e := Expire(items, bids, itemId, now, users);
      |e.items| == |items| &&
      e.items[i] == if !Due(items[i], itemId, now) then items[i]
                    else if e.outcome.WinnerNotified?
                    then items[i].(status := Ended, winnerId := Some(e.outcome.winner),
                                   paymentStatus := Pending)
                    else items[i].(status := Ended)
  {
    NoDueRowsNoneDue(items, itemId, now);
  }

  /**
   * How the run ends once the item is due: no bids, an unknown winner, a
   * failed lookup, or the bidder of a maximal-amount bid of that item.
   */
  lemma ExpireOutcome(items: seq<Item>, bids: seq<Bid>, itemId: ItemId, now: int,
                      users: UserId -> Lookup)
    ensures var e := Expire(items, bids, itemId, now, users);
      && (e.outcome == NoBids <==>
            e.outcome != NotDue && forall k :: 0 <= k < |bids| ==> bids[k].itemId != itemId)
      && (e.outcome.WinnerNotified? ==>
            && users(e.outcome.winner) == Found(e.outcome.email)
            && (exists k :: 0 <= k < |bids| && bids[k].itemId == itemId
                  && bids[k].bidderId == e.outcome.winner && bids[k].amount == e.outcome.amount)
            && (forall k :: 0 <= k < |bids| && bids[k].itemId == itemId ==>
                  bids[k].amount <= e.outcome.amount))
      && (e.outcome == WinnerUnknown ==>
            exists k :: 0 <= k < |bids| && bids[k].itemId == itemId && users(bids[k].bidderId) == NotFound)
      && (e.outcome == Errored ==>
            exists k :: 0 <= k < |bids| && bids[k].itemId == itemId && users(bids[k].bidderId) == LookupError)
  {
    var e := Expire(items, bids, itemId, now, users);
    var top := HighestBid(bids, itemId);
    if top.Some? {
      var k :| 0 <= k < |bids| && bids[k] == top.value;
      assert bids[k].itemId == itemId && bids[k].bidderId == top.value.bidderId;
    }
  }

  /**
   * A redelivered job, at any later moment and with any bids or user lookup,
   * does nothing once a first run got past the compare-and-swap: the item is
   * never given a second winner, nor a first one after a failed lookup.
   */
  lemma RedeliveredJobIsNoOp(items: seq<Item>, bids: seq<Bid>, itemId: ItemId, now: int,
                             users: UserId -> Lookup, bids2: seq<Bid>, now2: int,
                             users2: UserId -> Lookup)
    requires UniqueIds(items)
    requires Expire(items, bids, itemId, now, users).outcome != NotDue
    ensures var first := Expire(items, bids, itemId, now, users).items;
      Expire(first, bids2, itemId, now2, users2) == Expiry(first, NotDue)
  {
    var first := Expire(items, bids, itemId, now, users).items;
    forall i | 0 <= i < |first| ensures !Due(first[i], itemId, now2) {
      ExpireRowEffect(items, bids, itemId, now, users, i);
      NoDueRowsNoneDue(items, itemId, now);
    }
    NoDueRowsNoneDue(first, itemId, now2);
  }

  // ---------------------------------------------------------------------
  // syncActiveAuctions
  // ---------------------------------------------------------------------

  const BATCH_SIZE: nat := 10

  /** `SELECT id, end_time FROM items WHERE status = 'active' AND id > $1 ORDER BY id ASC LIMIT $2` */
  function ActiveBatch(items: seq<Item>, lastId: int, limit: nat): seq<Item> {
    Take(SortBy(ActiveAfter(items, lastId), IdKey), limit)
  }

  function ActiveAfter(items: seq<Item>, lastId: int): seq<Item> {
    Filter(items, (r: Item) => r.status == Active && r.id > lastId)
  }

  function IdKey(r: Item): int {
    r.id
  }

  /** The ids of active items above `lo`. */
  ghost function ActiveIdsAbove(items: seq<Item>, lo: int): set<ItemId> {
    set i | 0 <= i < |items| && items[i].status == Active && items[i].id > lo :: items[i].id
  }

  /** The ids of all active items. */
  ghost function ActiveIds(items: seq<Item>): set<ItemId> {
    set i | 0 <= i < |items| && items[i].status == Active :: items[i].id
  }

  /** Ids drawn from a SERIAL are positive, so the cursor's start at 0 passes over none. */
  lemma ActiveIdsAboveZero(items: seq<Item>)
    requires forall i :: 0 <= i < |items| ==> 0 < items[i].id
    ensures ActiveIdsAbove(items, 0) == ActiveIds(items)
  {
    forall id | id in ActiveIds(items) ensures id in ActiveIdsAbove(items, 0) {
      var i :| 0 <= i < |items| && items[i].status == Active && items[i].id == id;
      assert items[i].id > 0;
    }
  }

  /** The ids of active items in `(lo, hi]`. */
  ghost function ActiveIdsBetween(items: seq<Item>, lo: int, hi: int): set<ItemId> {
    set i | 0 <= i < |items| && items[i].status == Active && lo < items[i].id <= hi :: items[i].id
  }

  ghost function BatchIds(rows: seq<Item>): set<ItemId> {
    set j | 0 <= j < |rows| :: rows[j].id
  }

  /**
   * Each batch holds at most `limit` active rows, all above the cursor, in
   * strictly ascending id order; it is empty only when no active id is
   * above the cursor; and it holds every active id up to its last one.
   */
  lemma ActiveBatchSpec(items: seq<Item>, lastId: int, limit: nat)
    requires UniqueIds(items) && limit > 0
    ensures var b := ActiveBatch(items, lastId, limit);
      && |b| <= limit
      && (forall j :: 0 <= j < |b| ==> b[j] in items && b[j].status == Active && b[j].id > lastId)
      && (forall j, k :: 0 <= j < k < |b| ==> b[j].id < b[k].id)
      && (b == [] <==> ActiveIdsAbove(items, lastId) == {})
      && (b != [] ==> BatchIds(b) == ActiveIdsBetween(items, lastId, b[|b| - 1].id))
  {
    BatchMembers(items, lastId, limit);
    BatchEmptyIff(items, lastId, limit);
    if ActiveBatch(items, lastId, limit) != [] {
      BatchCoversUpToLast(items, lastId, limit);
    }
  }

  lemma BatchMembers(items: seq<Item>, lastId: int, limit: nat)
    requires UniqueIds(items)
    ensures var b := ActiveBatch(items, lastId, limit);
      && |b| <= limit
      && (forall j :: 0 <= j < |b| ==> b[j] in items && b[j].status == Active && b[j].id > lastId)
      && (forall j, k :: 0 <= j < k < |b| ==> b[j].id < b[k].id)
  {
    var s := SortBy(ActiveAfter(items, lastId), IdKey);
    var b := ActiveBatch(items, lastId, limit);
    assert b == s[..|b|];
    forall j | 0 <= j < |b| ensures b[j] in items && b[j].status == Active && b[j].id > lastId {
      assert b[j] == s[j] && s[j] in s;
    }
    forall j, k | 0 <= j < k < |b| ensures b[j].id < b[k].id {
      assert b[j] == s[j] && b[k] == s[k];
      assert IdKey(s[j]) <= IdKey(s[k]);
    }
  }

  lemma BatchEmptyIff(items: seq<Item>, lastId: int, limit: nat)
    requires limit > 0
    ensures ActiveBatch(items, lastId, limit) == [] <==> ActiveIdsAbove(items, lastId) == {}
  {
    var f := ActiveAfter(items, lastId);
    if ActiveBatch(items, lastId, limit) == [] {
      assert forall i :: 0 <= i < |items| ==> items[i] !in f;
    } else {
      var x := SortBy(f, IdKey)[0];
      assert x in SortBy(f, IdKey);
      var i :| 0 <= i < |items| && items[i] == x;
      assert items[i].id in ActiveIdsAbove(items, lastId);
    }
  }

  lemma BatchCoversUpToLast(items: seq<Item>, lastId: int, limit: nat)
    requires UniqueIds(items)
    requires ActiveBatch(items, lastId, limit) != []
    ensures var b := ActiveBatch(items, lastId, limit);
      BatchIds(b) == ActiveIdsBetween(items, lastId, b[|b| - 1].id)
  {
    BatchMembers(items, lastId, limit);
    var b := ActiveBatch(items, lastId, limit);
    BetweenInBatch(items, lastId, limit);
    var hi := b[|b| - 1].id;
    forall x | x in BatchIds(b) ensures x in ActiveIdsBetween(items, lastId, hi) {
      var j :| 0 <= j < |b| && b[j].id == x;
      var i :| 0 <= i < |items| && items[i] == b[j];
      if j < |b| - 1 {
        assert b[j].id < b[|b| - 1].id;
      }
    }
  }

  /** Every active id between the cursor and the batch's last id made it into the batch. */
  lemma BetweenInBatch(items: seq<Item>, lastId: int, limit: nat)
    requires UniqueIds(items)
    requires ActiveBatch(items, lastId, limit) != []
    ensures var b := ActiveBatch(items, lastId, limit);
      ActiveIdsBetween(items, lastId, b[|b| - 1].id) <= BatchIds(b)
  {
    var f := ActiveAfter(items, lastId);
    var s := SortBy(f, IdKey);
    var b := ActiveBatch(items, lastId, limit);
    assert b == s[..|b|];
    var hi := b[|b| - 1].id;
    forall x | x in ActiveIdsBetween(items, lastId, hi) ensures x in BatchIds(b) {
      var i :| 0 <= i < |items| && items[i].status == Active && lastId < items[i].id <= hi
        && items[i].id == x;
      assert items[i] in f;
      var p :| 0 <= p < |s| && s[p] == items[i];
      assert b[p] == items[i];
    }
  }

  /** The keys of the jobs for a set of items. */
  ghost function KeysOf(ids: set<ItemId>): set<string> {
    set id | id in ids :: JobKey(id)
  }

  /**
   * The queue after scheduling the items `done`, starting from `jobs0`:
   * earlier jobs are kept as they were, and each item of `done` whose key
   * was free got a job firing at its end time (or at once).
   */
  ghost predicate QueueSynced(jobs0: map<string, Job>, jobs: map<string, Job>, items: seq<Item>,
                              done: set<ItemId>, now: int)
  {
    && jobs.Keys == jobs0.Keys + KeysOf(done)
    && (forall key :: key in jobs0 ==> jobs[key] == jobs0[key])
    && (forall i :: 0 <= i < |items| && items[i].id in done && JobKey(items[i].id) !in jobs0 ==>
          JobKey(items[i].id) in jobs &&
          jobs[JobKey(items[i].id)] == Job(items[i].id, FireTime(items[i].endTime, now), Waiting))
  }

  lemma QueueSyncedStep(jobs0: map<string, Job>, jobs: map<string, Job>, items: seq<Item>,
                        done: set<ItemId>, now: int, row: Item)
    requires QueueSynced(jobs0, jobs, items, done, now)
    requires UniqueIds(items) && row in items && row.id !in done
    ensures QueueSynced(jobs0,
      AddJob(jobs, JobKey(row.id), Job(row.id, FireTime(row.endTime, now), Waiting)),
      items, done + {row.id}, now)
  {
    var key := JobKey(row.id);
    var jobs' := AddJob(jobs, key, Job(row.id, FireTime(row.endTime, now), Waiting));
    assert key !in KeysOf(done) by {
      if key in KeysOf(done) {
        var id :| id in done && JobKey(id) == key;
        JobKeyInjective(id, row.id);
      }
    }
    assert KeysOf(done + {row.id}) == KeysOf(done) + {key};
    forall i | 0 <= i < |items| && items[i].id in done + {row.id} && JobKey(items[i].id) !in jobs0
      ensures JobKey(items[i].id) in jobs'
      ensures jobs'[JobKey(items[i].id)] == Job(items[i].id, FireTime(items[i].endTime, now), Waiting)
    {
      if items[i].id == row.id {
        var p :| 0 <= p < |items| && items[p] == row;
        assert p == i;
      } else {
        assert JobKey(items[i].id) != key by {
          if JobKey(items[i].id) == key { JobKeyInjective(items[i].id, row.id); }
        }
      }
    }
  }

  lemma {:induction false} DistinctElements(s: seq<int>)
    requires Distinct(s)
    ensures |Elements(s)| == |s|
  {
    if s != [] {
      var t := s[..|s| - 1];
      assert Distinct(t);
      DistinctElements(t);
      assert Elements(s) == Elements(t) + {s[|s| - 1]};
      assert s[|s| - 1] !in Elements(t);
    }
  }

  lemma ActiveIdsSplit(items: seq<Item>, lo: int, mid: int)
    requires lo <= mid
    ensures ActiveIdsAbove(items, lo) == ActiveIdsBetween(items, lo, mid) + ActiveIdsAbove(items, mid)
  {
  }

  lemma ActiveIdsJoin(items: seq<Item>, lo: int, mid: int, hi: int)
    requires lo <= mid <= hi
    ensures ActiveIdsBetween(items, lo, hi) == ActiveIdsBetween(items, lo, mid) + ActiveIdsBetween(items, mid, hi)
  {
  }

  lemma BatchIdsSnoc(rows: seq<Item>, k: int)
    requires 0 <= k < |rows|
    requires forall j, l :: 0 <= j < l < |rows| ==> rows[j].id < rows[l].id
    ensures rows[k].id !in BatchIds(rows[..k])
    ensures BatchIds(rows[..k + 1]) == BatchIds(rows[..k]) + {rows[k].id}
  {
    assert rows[..k + 1] == rows[..k] + [rows[k]];
  }

  /** The queue after `scheduleAuctionEnd` for each row of a batch, in order. */
  function ScheduleAll(jobs: map<string, Job>, rows: seq<Item>, now: int): (r: map<string, Job>)
    ensures jobs.Keys <= r.Keys
  {
    if rows == [] then jobs
    else
      var last := rows[|rows| - 1];
      AddJob(ScheduleAll(jobs, rows[..|rows| - 1], now), JobKey(last.id),
             Job(last.id, FireTime(last.endTime, now), Waiting))
  }

  /** `await Promise.all(rows.map(item => scheduleAuctionEnd(item.id, item.end_time)))` */
  method ScheduleBatch(q: JobQueue, rows: seq<Item>, now: int)
    modifies q
    ensures q.jobs == ScheduleAll(old(q.jobs), rows, now)
  {
    ghost var jobs0 := q.jobs;
    var k := 0;
    while k < |rows|
      invariant 0 <= k <= |rows|
      invariant q.jobs == ScheduleAll(jobs0, rows[..k], now)
    {
      assert rows[..k + 1][..k] == rows[..k];
      ScheduleAuctionEnd(q, rows[k].id, rows[k].endTime, now);
      k := k + 1;
    }
    assert rows[..|rows|] == rows;
  }

  /**
   * Scheduling a batch of rows that are not yet synced, in ascending id
   * order, extends the synced set by the batch's ids.
   */
  lemma {:induction false} ScheduleAllSynced(jobs0: map<string, Job>, jobs: map<string, Job>, items: seq<Item>,
                                             done: set<ItemId>, rows: seq<Item>, now: int)
    requires UniqueIds(items)
    requires forall j :: 0 <= j < |rows| ==> rows[j] in items && rows[j].id !in done
    requires forall j, l :: 0 <= j < l < |rows| ==> rows[j].id < rows[l].id
    requires QueueSynced(jobs0, jobs, items, done, now)
    ensures QueueSynced(jobs0, ScheduleAll(jobs, rows, now), items, done + BatchIds(rows), now)
  {
    if rows == [] {
      assert done + BatchIds(rows) == done;
    } else {
      var init := rows[..|rows| - 1];
      assert forall j :: 0 <= j < |init| ==> init[j] == rows[j];
      ScheduleAllSynced(jobs0, jobs, items, done, init, now);
      ScheduleLastSynced(jobs0, ScheduleAll(jobs, init, now), items, done, rows, now);
    }
  }

  /** The last row of a batch joins the synced set once the rows before it are synced. */
  lemma ScheduleLastSynced(jobs0: map<string, Job>, jobs: map<string, Job>, items: seq<Item>,
                           done: set<ItemId>, rows: seq<Item>, now: int)
    requires UniqueIds(items) && rows != []
    requires forall j :: 0 <= j < |rows| ==> rows[j] in items && rows[j].id !in done
    requires forall j, l :: 0 <= j < l < |rows| ==> rows[j].id < rows[l].id
    requires QueueSynced(jobs0, jobs, items, done + BatchIds(rows[..|rows| - 1]), now)
    ensures var last := rows[|rows| - 1];
      QueueSynced(jobs0, AddJob(jobs, JobKey(last.id), Job(last.id, FireTime(last.endTime, now), Waiting)),
                  items, done + BatchIds(rows), now)
  {
    var k := |rows| - 1;
    var before := done + BatchIds(rows[..k]);
    BatchIdsSnoc(rows, k);
    assert rows[..k + 1] == rows;
    QueueSyncedStep(jobs0, jobs, items, before, now, rows[k]);
    assert before + {rows[k].id} == done + BatchIds(rows);
  }

  /**
   * Keyset pagination over the active items: batches of BATCH_SIZE above a
   * `lastId` cursor until an empty batch; every active item is scheduled
   * exactly once and `totalSynced` counts them.
   */
  method SyncActiveAuctions(db: Database, q: JobQueue, now: int)
    returns (totalSynced: nat, ghost scheduled: seq<ItemId>)
    requires db.Valid()
    modifies q
    ensures ActiveIdsAbove(db.items, 0) == ActiveIds(db.items)
    ensures Distinct(scheduled) && Elements(scheduled) == ActiveIds(db.items)
    ensures totalSynced == |scheduled| == |ActiveIds(db.items)|
    ensures QueueSynced(old(q.jobs), q.jobs, db.items, ActiveIds(db.items), now)
  {
    ghost var items := db.items;
    var lastId := 0;
    var hasMore := true;
    totalSynced := 0;
    scheduled := [];
    while hasMore
      invariant lastId >= 0
      invariant Distinct(scheduled) && |scheduled| == totalSynced
      invariant Elements(scheduled) == ActiveIdsBetween(items, 0, lastId)
      invariant QueueSynced(old(q.jobs), q.jobs, items, ActiveIdsBetween(items, 0, lastId), now)
      invariant !hasMore ==> ActiveIdsAbove(items, lastId) == {}
      decreases |ActiveIdsAbove(items, lastId)|, hasMore
    {
      var rows := ActiveBatch(db.items, lastId, BATCH_SIZE);
      BatchEmptyIff(items, lastId, BATCH_SIZE);
      if |rows| == 0 {
        hasMore := false;
        break;
      }
      SyncAdvance(items, scheduled, lastId);
      ghost var previous := lastId;
      ghost var done := ActiveIdsBetween(items, 0, lastId);
      var last := rows[|rows| - 1].id;
      ScheduleAllSynced(old(q.jobs), q.jobs, items, done, rows, now);
      ScheduleBatch(q, rows, now);
      assert done + BatchIds(rows) == ActiveIdsBetween(items, 0, last);
      lastId := last;
      totalSynced := totalSynced + |rows|;
      scheduled := scheduled + IdsOf(rows);
      StrictSubsetSmaller(ActiveIdsAbove(items, lastId), ActiveIdsAbove(items, previous));
    }
    SyncDone(items, lastId);
    assert ActiveIdsAbove(items, 0) == ActiveIdsBetween(items, 0, lastId);
    ActiveIdsAboveZero(items);
    DistinctElements(scheduled);
  }

  /** Once no active id is left above the cursor, the ids up to it are all the active ids. */
  lemma SyncDone(items: seq<Item>, lastId: int)
    requires lastId >= 0 && ActiveIdsAbove(items, lastId) == {}
    ensures ActiveIdsAbove(items, 0) == ActiveIdsBetween(items, 0, lastId)
  {
    ActiveIdsSplit(items, 0, lastId);
  }

  lemma StrictSubsetSmaller(a: set<ItemId>, b: set<ItemId>)
    requires a < b
    ensures |a| < |b|
  {
    var d := b - a;
    assert b == a + d;
    assert a * d == {};
  }

  /**
   * One non-empty batch moves the cursor to its last id: the scheduled ids
   * stay distinct and cover exactly the active ids up to the new cursor,
   * and fewer active ids remain above it.
   */
  lemma SyncAdvance(items: seq<Item>, scheduled: seq<ItemId>, lastId: int)
    requires UniqueIds(items) && lastId >= 0
    requires Distinct(scheduled) && Elements(scheduled) == ActiveIdsBetween(items, 0, lastId)
    requires ActiveBatch(items, lastId, BATCH_SIZE) != []
    ensures var rows := ActiveBatch(items, lastId, BATCH_SIZE);
      var last := rows[|rows| - 1].id;
      && last > lastId
      && (forall j :: 0 <= j < |rows| ==> rows[j] in items && rows[j].id !in ActiveIdsBetween(items, 0, lastId))
      && (forall j, k :: 0 <= j < k < |rows| ==> rows[j].id < rows[k].id)
      && Distinct(scheduled + IdsOf(rows))
      && ActiveIdsBetween(items, 0, lastId) + BatchIds(rows) == ActiveIdsBetween(items, 0, last)
      && Elements(scheduled + IdsOf(rows)) == ActiveIdsBetween(items, 0, last)
      && ActiveIdsAbove(items, last) < ActiveIdsAbove(items, lastId)
  {
    var rows := ActiveBatch(items, lastId, BATCH_SIZE);
    ActiveBatchSpec(items, lastId, BATCH_SIZE);
    var last := rows[|rows| - 1].id;
    SyncStep(items, scheduled, rows, lastId);
    ActiveIdsJoin(items, 0, lastId, last);
    var p :| 0 <= p < |items| && items[p] == rows[|rows| - 1];
    assert last in ActiveIdsAbove(items, lastId);
  }

  /** Appending a batch above the cursor keeps the scheduled ids distinct. */
  lemma SyncStep(items: seq<Item>, scheduled: seq<ItemId>, rows: seq<Item>, lastId: int)
    requires Distinct(scheduled) && rows != []
    requires Elements(scheduled) == ActiveIdsBetween(items, 0, lastId)
    requires forall j :: 0 <= j < |rows| ==> rows[j].id > lastId
    requires forall j, k :: 0 <= j < k < |rows| ==> rows[j].id < rows[k].id
    ensures Distinct(scheduled + IdsOf(rows))
    ensures Elements(scheduled + IdsOf(rows)) == Elements(scheduled) + BatchIds(rows)
  {
    var t := scheduled + IdsOf(rows);
    forall j, k | 0 <= j < k < |t| ensures t[j] != t[k] {
      if k >= |scheduled| && j < |scheduled| {
        assert t[j] in Elements(scheduled);
      }
    }
    forall x | x in Elements(t) ensures x in Elements(scheduled) + BatchIds(rows) {
      var j :| 0 <= j < |t| && t[j] == x;
      if j >= |scheduled| {
        assert rows[j - |scheduled|].id == x;
      }
    }
    forall x | x in Elements(scheduled) + BatchIds(rows) ensures x in Elements(t) {
      if x in Elements(scheduled) {
        var j :| 0 <= j < |scheduled| && scheduled[j] == x;
        assert t[j] == x;
      } else {
        var j :| 0 <= j < |rows| && rows[j].id == x;
        assert t[|scheduled| + j] == x;
      }
    }
  }
}
