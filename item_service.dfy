/**
 * The item service: URL signing of the image column, the read queries over
 * the items table, item creation, the bid transaction and the data the
 * recommender starts from.
 */
module ItemService {
  import opened Wrappers
  import opened Rows
  import opened Text
  import opened Store

  // ---------------------------------------------------------------------
  // toPgVectorLiteral
  // ---------------------------------------------------------------------

  /** `[${embeddingArray.join(",")}]`, over the numbers already written out as text. */
  function ToPgVectorLiteral(parts: seq<string>): (s: string)
    ensures |s| >= 2 && s[0] == '[' && s[|s| - 1] == ']'
  {
    "[" + Join(parts, ',') + "]"
  }

  /** The literal reads back as the numbers it was built from. */
  lemma PgVectorLiteralRoundTrip(parts: seq<string>)
    requires |parts| >= 1
    requires forall i :: 0 <= i < |parts| ==> ',' !in parts[i]
    ensures var s := ToPgVectorLiteral(parts);
      Split(s[1..|s| - 1], ',') == parts
  {
    var s := ToPgVectorLiteral(parts);
    assert s[1..|s| - 1] == Join(parts, ',');
    SplitJoinRoundTrip(parts, ',');
  }

  // ---------------------------------------------------------------------
  // attachPresignedUrl
  // ---------------------------------------------------------------------

  /** A JavaScript-truthy array entry: neither null nor the empty string. */
  predicate Truthy(u: Option<string>) {
    u.Some? && u.value != ""
  }

  /** `signed || url`, for a signer that answers null on error. */
  function SignOne(url: string, sign: string -> Option<string>): string {
    match sign(url)
    case Some(signed) => if signed != "" then signed else url
    case None => url
  }

  /** `Array.isArray(item.image_url) ? item.image_url : [item.image_url]` */
  function UrlList(img: ImageUrl): seq<Option<string>> {
    match img
    case NoImage => []
    case Single(u) => [Some(u)]
    case Many(us) => us
  }

  /** `urls.map(url => !url ? null : signed || url)` */
  function SignAll(urls: seq<Option<string>>, sign: string -> Option<string>): (r: seq<Option<string>>)
    ensures |r| == |urls|
  {
    if urls == [] then []
    else [if Truthy(urls[0]) then Some(SignOne(urls[0].value, sign)) else None] + SignAll(urls[1..], sign)
  }

  /** `.filter(u => u !== null)` */
  function DropNulls(us: seq<Option<string>>): (r: seq<Option<string>>)
    ensures |r| <= |us|
    ensures forall j :: 0 <= j < |r| ==> r[j].Some?
  {
    if us == [] then []
    else (if us[0].Some? then [us[0]] else []) + DropNulls(us[1..])
  }

  /** `!item.image_url`: NULL or the empty string; an empty array is truthy. */
  predicate NoImageUrl(img: ImageUrl) {
    img == NoImage || img == Single("")
  }

  function AttachPresignedUrl(item: Item, sign: string -> Option<string>): Item {
    if NoImageUrl(item.imageUrl) then item
    else item.(imageUrl := Many(DropNulls(SignAll(UrlList(item.imageUrl), sign))))
  }

  /** The truthy entries, in order: what the result should have one entry for. */
  function TruthyUrls(urls: seq<Option<string>>): (r: seq<string>)
    ensures |r| <= |urls|
  {
    if urls == [] then []
    else (if Truthy(urls[0]) then [urls[0].value] else []) + TruthyUrls(urls[1..])
  }

  function SignedList(urls: seq<string>, sign: string -> Option<string>): (r: seq<Option<string>>)
    ensures |r| == |urls|
  {
    seq(|urls|, j requires 0 <= j < |urls| => Some(SignOne(urls[j], sign)))
  }

  lemma SignOneIsSignedOrOriginal(url: string, sign: string -> Option<string>)
    ensures SignOne(url, sign) == url || sign(url) == Some(SignOne(url, sign))
    ensures SignOne(url, sign) != "" <== url != ""
  {
  }

  /** Signing then dropping nulls equals keeping the truthy URLs and signing each. */
  lemma {:induction false} SignThenDropNulls(urls: seq<Option<string>>, sign: string -> Option<string>)
    ensures DropNulls(SignAll(urls, sign)) == SignedList(TruthyUrls(urls), sign)
  {
    if urls != [] {
      SignThenDropNulls(urls[1..], sign);
      var head := if Truthy(urls[0]) then Some(SignOne(urls[0].value, sign)) else None;
      assert SignAll(urls, sign) == [head] + SignAll(urls[1..], sign);
      assert SignAll(urls, sign)[1..] == SignAll(urls[1..], sign);
      var t := TruthyUrls(urls[1..]);
      if Truthy(urls[0]) {
        assert SignedList([urls[0].value] + t, sign) == [head] + SignedList(t, sign);
      } else {
        assert [] + t == t;
      }
    }
  }

  /**
   * With no image the item is returned as it is; otherwise only `image_url`
   * changes, to an array with one entry per truthy input URL, in order,
   * each the signed URL or the original.
   */
  lemma AttachPresignedUrlSpec(item: Item, sign: string -> Option<string>)
    ensures var r := AttachPresignedUrl(item, sign);
      && (NoImageUrl(item.imageUrl) ==> r == item)
      && (!NoImageUrl(item.imageUrl) ==>
            && r.(imageUrl := item.imageUrl) == item
            && r.imageUrl == Many(SignedList(TruthyUrls(UrlList(item.imageUrl)), sign)))
  {
    SignThenDropNulls(UrlList(item.imageUrl), sign);
  }

  /** A legacy single URL becomes a one-entry array. */
  lemma SingleUrlBecomesArray(item: Item, url: string, sign: string -> Option<string>)
    requires item.imageUrl == Single(url) && url != ""
    ensures AttachPresignedUrl(item, sign).imageUrl == Many([Some(SignOne(url, sign))])
  {
    SignThenDropNulls([Some(url)], sign);
    assert TruthyUrls([Some(url)]) == [url];
  }

  /** `Promise.all(rows.map(attachPresignedUrl))`: order is kept. */
  function MapAttach(rows: seq<Item>, sign: string -> Option<string>): (r: seq<Item>)
    ensures |r| == |rows|
  {
    seq(|rows|, j requires 0 <= j < |rows| => AttachPresignedUrl(rows[j], sign))
  }

  // ---------------------------------------------------------------------
  // Read queries
  // ---------------------------------------------------------------------

  function SellerRows(items: seq<Item>, sellerId: UserId): seq<Item> {
    Filter(items, (r: Item) => r.sellerId == sellerId)
  }

  /** `SELECT * FROM items WHERE seller_id = $1` */
  function GetItemsBySeller(items: seq<Item>, sellerId: UserId, sign: string -> Option<string>): seq<Item> {
    MapAttach(SellerRows(items, sellerId), sign)
  }

  /** Every row of the seller is returned (signed), and nothing else. */
  lemma GetItemsBySellerSpec(items: seq<Item>, sellerId: UserId, sign: string -> Option<string>)
    ensures var r := GetItemsBySeller(items, sellerId, sign);
      && (forall j :: 0 <= j < |r| ==>
            && r[j].sellerId == sellerId
            && exists i :: 0 <= i < |items| && r[j] == AttachPresignedUrl(items[i], sign))
      && (forall i :: 0 <= i < |items| && items[i].sellerId == sellerId ==>
            AttachPresignedUrl(items[i], sign) in r)
  {
    var rows := SellerRows(items, sellerId);
    var r := GetItemsBySeller(items, sellerId, sign);
    forall j | 0 <= j < |r|
      ensures r[j].sellerId == sellerId
      ensures exists i :: 0 <= i < |items| && r[j] == AttachPresignedUrl(items[i], sign)
    {
      assert rows[j] in rows;
      var i :| 0 <= i < |items| && items[i] == rows[j];
    }
    forall i | 0 <= i < |items| && items[i].sellerId == sellerId
      ensures AttachPresignedUrl(items[i], sign) in r
    {
      assert items[i] in rows;
      var j :| 0 <= j < |rows| && rows[j] == items[i];
      assert r[j] == AttachPresignedUrl(items[i], sign);
    }
  }

  /** `SELECT * FROM items WHERE id = $1`, then `null` or the signed row. */
  function GetItemById(items: seq<Item>, id: ItemId, sign: string -> Option<string>): Option<Item> {
    match FindById(items, id)
    case None => None
    case Some(row) => Some(AttachPresignedUrl(row, sign))
  }

  lemma GetItemByIdSpec(items: seq<Item>, id: ItemId, sign: string -> Option<string>)
    ensures var r := GetItemById(items, id, sign);
      && (r.None? <==> forall i :: 0 <= i < |items| ==> items[i].id != id)
      && (r.Some? ==>
            && r.value.id == id
            && exists i :: 0 <= i < |items| && r.value == AttachPresignedUrl(items[i], sign))
  {
    var f := FindById(items, id);
    if f.Some? {
      var i :| 0 <= i < |items| && items[i] == f.value;
    }
  }

  function EndKey(r: Item): int {
    r.endTime
  }

  function ActiveRows(items: seq<Item>, now: int): seq<Item> {
    SortBy(Filter(items, (r: Item) => r.status == Active && r.endTime > now), EndKey)
  }

  /** `SELECT * FROM items WHERE status = 'active' AND end_time > NOW() ORDER BY end_time ASC` */
  function GetAllActiveItems(items: seq<Item>, now: int, sign: string -> Option<string>): seq<Item> {
    MapAttach(ActiveRows(items, now), sign)
  }

  /**
   * Exactly the active rows that have not ended, each as often as in the
   * table, by ascending end time.
   */
  lemma ActiveRowsSpec(items: seq<Item>, now: int)
    ensures var r := ActiveRows(items, now);
      && (forall x :: x in r <==> x in items && x.status == Active && x.endTime > now)
      && (forall i, j :: 0 <= i < j < |r| ==> r[i].endTime <= r[j].endTime)
      && multiset(r) == multiset(Filter(items, (x: Item) => x.status == Active && x.endTime > now))
  {
    var r := ActiveRows(items, now);
    assert SortedBy(r, EndKey);
    forall i, j | 0 <= i < j < |r| ensures r[i].endTime <= r[j].endTime {
      assert EndKey(r[i]) <= EndKey(r[j]);
    }
  }

  /** `ORDER BY start_time DESC` is ascending order of the negated key. */
  function LatestStartFirst(r: Item): int {
    -r.startTime
  }

  predicate Candidate(r: Item, categoryId: int, excludedId: ItemId, now: int) {
    r.status == Active && r.endTime > now && r.categoryId == categoryId && r.id != excludedId
  }

  /** The rows the WHERE clause of the candidate query keeps, by newest start. */
  function CandidatesByStart(items: seq<Item>, categoryId: int, excludedId: ItemId, now: int): seq<Item> {
    SortBy(Filter(items, (r: Item) => Candidate(r, categoryId, excludedId, now)), LatestStartFirst)
  }

  function CandidateRows(items: seq<Item>, categoryId: int, excludedId: ItemId, limit: nat, now: int)
    : seq<Item>
  {
    Take(CandidatesByStart(items, categoryId, excludedId, now), limit)
  }

  /**
   * `SELECT * FROM items WHERE status = 'active' AND end_time > NOW()
   *  AND category_id = $1 AND id != $2 ORDER BY start_time DESC LIMIT $3`
   */
  function GetCandidateItems(items: seq<Item>, categoryId: int, excludedId: ItemId, limit: nat, now: int,
                             sign: string -> Option<string>): seq<Item>
  {
    MapAttach(CandidateRows(items, categoryId, excludedId, limit, now), sign)
  }

  /**
   * At most `limit` candidates, newest start first; when fewer than `limit`
   * come back they are all there are, and no candidate left out started
   * later than the last one returned.
   */
  lemma CandidateRowsSpec(items: seq<Item>, categoryId: int, excludedId: ItemId, limit: nat, now: int)
    ensures var r := CandidateRows(items, categoryId, excludedId, limit, now);
      && |r| <= limit
      && (forall j :: 0 <= j < |r| ==> r[j] in items && Candidate(r[j], categoryId, excludedId, now))
      && (forall i, j :: 0 <= i < j < |r| ==> r[i].startTime >= r[j].startTime)
      && (|r| < limit ==> forall x :: x in items && Candidate(x, categoryId, excludedId, now) ==> x in r)
      && (r != [] ==> forall x :: x in items && Candidate(x, categoryId, excludedId, now) && x !in r ==>
            x.startTime <= r[|r| - 1].startTime)
  {
    CandidateRowsOrdered(items, categoryId, excludedId, limit, now);
    CandidateRowsTopK(items, categoryId, excludedId, limit, now);
  }

  lemma CandidateRowsOrdered(items: seq<Item>, categoryId: int, excludedId: ItemId, limit: nat, now: int)
    ensures var r := CandidateRows(items, categoryId, excludedId, limit, now);
      && |r| <= limit
      && (forall j :: 0 <= j < |r| ==> r[j] in items && Candidate(r[j], categoryId, excludedId, now))
      && (forall i, j :: 0 <= i < j < |r| ==> r[i].startTime >= r[j].startTime)
  {
    var s := CandidatesByStart(items, categoryId, excludedId, now);
    var r := CandidateRows(items, categoryId, excludedId, limit, now);
    assert r == s[..|r|];
    forall j | 0 <= j < |r| ensures r[j] in items && Candidate(r[j], categoryId, excludedId, now) {
      assert r[j] == s[j] && s[j] in s;
    }
    forall i, j | 0 <= i < j < |r| ensures r[i].startTime >= r[j].startTime {
      assert r[i] == s[i] && r[j] == s[j];
      assert LatestStartFirst(s[i]) <= LatestStartFirst(s[j]);
    }
  }

  lemma CandidateRowsTopK(items: seq<Item>, categoryId: int, excludedId: ItemId, limit: nat, now: int)
    ensures var r := CandidateRows(items, categoryId, excludedId, limit, now);
      && (|r| < limit ==> forall x :: x in items && Candidate(x, categoryId, excludedId, now) ==> x in r)
      && (r != [] ==> forall x :: x in items && Candidate(x, categoryId, excludedId, now) && x !in r ==>
            x.startTime <= r[|r| - 1].startTime)
  {
    var s := CandidatesByStart(items, categoryId, excludedId, now);
    var r := CandidateRows(items, categoryId, excludedId, limit, now);
    assert r == s[..|r|];
    assert forall x :: x in items && Candidate(x, categoryId, excludedId, now) ==> x in s;
    if |r| < limit {
      assert r == s;
    }
    if r != [] {
      forall x | x in items && Candidate(x, categoryId, excludedId, now) && x !in r
        ensures x.startTime <= r[|r| - 1].startTime
      {
        var p :| 0 <= p < |s| && s[p] == x;
        assert LatestStartFirst(s[|r| - 1]) <= LatestStartFirst(s[p]);
      }
    }
  }

  // ---------------------------------------------------------------------
  // getRecommendationBaseData
  // ---------------------------------------------------------------------

  datatype BaseData = BaseData(currentItem: Item, candidates: seq<Item>)

  /**
   * `similar` is how getSimilarItemsByEmbedding ended: Some list, or None
   * when it threw (no embedding, or the vector query failed).
   */
  function GetRecommendationBaseData(items: seq<Item>, itemId: ItemId, limit: nat, now: int,
                                     sign: string -> Option<string>, similar: Option<seq<Item>>)
    : Result<BaseData>
  {
    match GetItemById(items, itemId, sign)
    case None => Failure("Item not found")
    case Some(currentItem) =>
      var candidates := match similar
        case Some(list) => list
        case None => GetCandidateItems(items, currentItem.categoryId, itemId, limit, now, sign);
      Success(BaseData(currentItem, candidates))
  }

  /**
   * A missing item fails; otherwise the vector list is used when it came
   * back, and the category candidates of the item when it threw.
   */
  lemma RecommendationBaseDataSpec(items: seq<Item>, itemId: ItemId, limit: nat, now: int,
                                   sign: string -> Option<string>, similar: Option<seq<Item>>)
    ensures var r := GetRecommendationBaseData(items, itemId, limit, now, sign, similar);
      && (r.Failure? <==> forall i :: 0 <= i < |items| ==> items[i].id != itemId)
      && (r.Failure? ==> r.error == "Item not found")
      && (r.Success? ==> r.value.currentItem.id == itemId)
      && (r.Success? && similar.Some? ==> r.value.candidates == similar.value)
      && (r.Success? && similar.None? ==>
            exists i :: 0 <= i < |items| && items[i].id == itemId &&
              r.value.candidates == GetCandidateItems(items, items[i].categoryId, itemId, limit, now, sign))
  {
    GetItemByIdSpec(items, itemId, sign);
    var f := FindById(items, itemId);
    if f.Some? {
      var i :| 0 <= i < |items| && items[i] == f.value;
      assert AttachPresignedUrl(items[i], sign).categoryId == items[i].categoryId;
    }
  }

  // ---------------------------------------------------------------------
  // createItem
  // ---------------------------------------------------------------------

  /** The fields of the request; `current_price` and `start_time` may be absent. */
  datatype NewItem = NewItem(
    name: string,
    description: string,
    startPrice: int,
    currentPrice: Option<int>,
    startTime: Option<int>,
    endTime: int,
    categoryId: int,
    sellerId: UserId)

  /**
   * The row the INSERT stores under `id`, with `image_url` set by the
   * follow-up UPDATE when any image was uploaded.
   */
  function NewRow(input: NewItem, id: ItemId, now: int, uploadedUrls: seq<string>): Item {
    Item(id, input.name, input.description, input.sellerId, input.categoryId, input.startPrice,
         input.currentPrice.GetOr(input.startPrice), input.startTime.GetOr(now), input.endTime,
         Active, None, Unpaid, None, None,
         if |uploadedUrls| > 0 then Many(seq(|uploadedUrls|, j requires 0 <= j < |uploadedUrls| => Some(uploadedUrls[j])))
         else NoImage)
  }

  /**
   * INSERT ... RETURNING id, then, when there are images, their S3 uploads
   * and the image UPDATE, then the final SELECT and signing.
   * `uploadedUrls` are the object URLs the uploads store, one per image;
   * `imageStepFails` says whether an upload or the image UPDATE throws.
   * Nothing wraps the statements in a transaction: the INSERT is already
   * committed when the call rejects, so the new row stays, active and
   * without images.
   */
  method CreateItem(db: Database, input: NewItem, now: int, uploadedUrls: seq<string>,
                    imageStepFails: bool, sign: string -> Option<string>)
    returns (created: Result<Item>)
    requires db.Valid()
    modifies db
    ensures db.Valid()
    ensures db.itemSeq == old(db.itemSeq) + 1
    ensures db.bids == old(db.bids) && db.bidSeq == old(db.bidSeq)
    ensures created.Failure? <==> imageStepFails && |uploadedUrls| > 0
    ensures created.Failure? ==> db.items == old(db.items) + [NewRow(input, old(db.itemSeq), now, [])]
    ensures created.Success? ==>
      && db.items == old(db.items) + [NewRow(input, old(db.itemSeq), now, uploadedUrls)]
      && created.value == AttachPresignedUrl(NewRow(input, old(db.itemSeq), now, uploadedUrls), sign)
  {
    var itemId := db.itemSeq;
    db.itemSeq := db.itemSeq + 1;
    var row := NewRow(input, itemId, now, []);
    db.items := db.items + [row];
    if |uploadedUrls| > 0 {
      if imageStepFails {
        return Failure("image upload failed");
      }
      var urls := seq(|uploadedUrls|, j requires 0 <= j < |uploadedUrls| => Some(uploadedUrls[j]));
      db.items := db.items[|db.items| - 1 := row.(imageUrl := Many(urls))];
    }
    var finalRow := db.items[|db.items| - 1];
    created := Success(AttachPresignedUrl(finalRow, sign));
  }

  /**
   * The stored row defaults `current_price` to the start price and
   * `start_time` to the moment of the call, and is always active with no
   * winner and no payment.
   */
  lemma NewRowDefaults(input: NewItem, id: ItemId, now: int, uploadedUrls: seq<string>)
    ensures var r := NewRow(input, id, now, uploadedUrls);
      && r.id == id && r.status == Active && r.winnerId == None && r.paymentStatus == Unpaid
      && (input.currentPrice.None? ==> r.currentPrice == input.startPrice)
      && (input.currentPrice.Some? ==> r.currentPrice == input.currentPrice.value)
      && (input.startTime.None? ==> r.startTime == now)
      && (r.imageUrl == NoImage <==> uploadedUrls == [])
  {
  }

  /** A new item shows in the active listing exactly while its end time is ahead. */
  lemma CreatedItemListedWhileOpen(items: seq<Item>, input: NewItem, id: ItemId, now: int,
                                   uploadedUrls: seq<string>, later: int)
    ensures var row := NewRow(input, id, now, uploadedUrls);
      row in ActiveRows(items + [row], later) <==> input.endTime > later
  {
    var row := NewRow(input, id, now, uploadedUrls);
    ActiveRowsSpec(items + [row], later);
    assert row in items + [row];
  }

  // ---------------------------------------------------------------------
  // updateItemBid
  // ---------------------------------------------------------------------

  /** Where the transaction fails, if it does: one of its three statements throws. */
  datatype Fault = NoFault | InsertFails | UpdateFails | CommitFails

  /** `{ bid: bidInsert.rows[0], item: itemUpdate.rows[0] }`; the item is undefined when no row matched. */
  datatype BidUpdate = BidUpdate(bid: Bid, item: Option<Item>)

  /** `UPDATE items SET current_price = $1 WHERE id = $2` */
  function SetPrice(items: seq<Item>, itemId: ItemId, amount: int): (r: seq<Item>)
    ensures |r| == |items|
  {
    seq(|items|, i requires 0 <= i < |items| =>
      if items[i].id == itemId then items[i].(currentPrice := amount) else items[i])
  }

  /**
   * BEGIN; INSERT INTO bids ...; UPDATE items SET current_price ...; COMMIT,
   * with ROLLBACK and a rethrow on any failure. The bid id is drawn from its
   * sequence before the insert can fail, and a sequence is not rolled back.
   */
  method UpdateItemBid(db: Database, itemId: ItemId, bidAmount: int, bidderId: UserId, now: int,
                       fault: Fault)
    returns (r: Result<BidUpdate>)
    requires db.Valid()
    modifies db
    ensures db.Valid()
    ensures db.bidSeq == old(db.bidSeq) + 1 && db.itemSeq == old(db.itemSeq)
    ensures r.Success? <==> fault == NoFault
    ensures r.Success? ==>
      && db.bids == old(db.bids) + [Bid(old(db.bidSeq), itemId, bidderId, bidAmount, now)]
      && db.items == SetPrice(old(db.items), itemId, bidAmount)
      && r.value.bid == Bid(old(db.bidSeq), itemId, bidderId, bidAmount, now)
      && r.value.item == FindById(db.items, itemId)
    ensures r.Failure? ==> db.items == old(db.items) && db.bids == old(db.bids)
  {
    var savedItems, savedBids := db.items, db.bids;
    // INSERT INTO bids(amount, item_id, bidder_id) VALUES($1,$2,$3) RETURNING *
    var bid := Bid(db.bidSeq, itemId, bidderId, bidAmount, now);
    db.bidSeq := db.bidSeq + 1;
    if fault == InsertFails {
      db.items, db.bids := savedItems, savedBids;
      return Failure("INSERT INTO bids failed");
    }
    db.bids := db.bids + [bid];
    // UPDATE items SET current_price = $1 WHERE id = $2 RETURNING *
    if fault == UpdateFails {
      db.items, db.bids := savedItems, savedBids;
      return Failure("UPDATE items failed");
    }
    db.items := SetPrice(db.items, itemId, bidAmount);
    assert SameIds(savedItems, db.items);
    var updated := FindById(db.items, itemId);
    if fault == CommitFails {
      db.items, db.bids := savedItems, savedBids;
      return Failure("COMMIT failed");
    }
    r := Success(BidUpdate(bid, updated));
  }

  /**
   * The price is overwritten whatever it was before, lower or higher; only
   * `current_price` of that item changes and every other row stays.
   */
  lemma PriceOverwrittenUnconditionally(items: seq<Item>, itemId: ItemId, amount: int)
    ensures var r := SetPrice(items, itemId, amount);
      && (forall i :: 0 <= i < |items| && items[i].id == itemId ==>
            r[i] == items[i].(currentPrice := amount))
      && (forall i :: 0 <= i < |items| && items[i].id != itemId ==> r[i] == items[i])
  {
  }

  /**
   * No comparison guards the write: a bid below the item's current price
   * becomes its price, which is then lower than before.
   */
  lemma LowerBidLowersPrice(items: seq<Item>, itemId: ItemId, amount: int)
    requires exists i :: 0 <= i < |items| && items[i].id == itemId && amount < items[i].currentPrice
    ensures forall i ::
      0 <= i < |items| && items[i].id == itemId ==> SetPrice(items, itemId, amount)[i].currentPrice == amount
    ensures exists i ::
      0 <= i < |items| && items[i].id == itemId &&
      SetPrice(items, itemId, amount)[i].currentPrice < items[i].currentPrice
  {
    var i :| 0 <= i < |items| && items[i].id == itemId && amount < items[i].currentPrice;
    assert SetPrice(items, itemId, amount)[i].currentPrice < items[i].currentPrice;
  }

  /** With the item present, a committed bid returns the item at its new price. */
  lemma CommittedBidReturnsNewPrice(items: seq<Item>, itemId: ItemId, amount: int)
    requires UniqueIds(items)
    requires exists i :: 0 <= i < |items| && items[i].id == itemId
    ensures var found := FindById(SetPrice(items, itemId, amount), itemId);
      found.Some? && found.value.currentPrice == amount &&
      exists i :: 0 <= i < |items| && found.value == items[i].(currentPrice := amount)
  {
    var r := SetPrice(items, itemId, amount);
    var i :| 0 <= i < |items| && items[i].id == itemId;
    assert r[i].id == itemId;
    var found := FindById(r, itemId);
    var k :| 0 <= k < |r| && r[k] == found.value;
  }
}
