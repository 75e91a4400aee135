/**
 * The Razorpay payment endpoints: building the order options, and marking
 * an item paid once the checkout signature checks out. The HMAC-SHA256
 * digest (RFC 2104) and the Razorpay order call are parameters.
 */
module PaymentController {
  import opened Wrappers
  import opened Rows
  import opened Text
  import opened Store

  /** The JSON responses the two handlers send. */
  datatype Body =
    | Message(msg: string)
    | Verified(orderId: string, paymentId: string)
    | Order(order: string)
    | ServerError

  datatype Response = Response(status: int, body: Body)

  // ---------------------------------------------------------------------
  // createOrder
  // ---------------------------------------------------------------------

  datatype OrderOptions = OrderOptions(amount: int, currency: string, receipt: string)

  const RECEIPT_PREFIX: string := "receipt_item_"

  /** The options object for a whole-unit `amount` (rupees become paise). */
  function OrderOptionsFor(amount: int, itemId: ItemId): (o: OrderOptions)
    ensures o.amount % 100 == 0 && o.amount / 100 == amount
    ensures o.currency == "INR"
    ensures |o.receipt| > |RECEIPT_PREFIX| && o.receipt[..|RECEIPT_PREFIX|] == RECEIPT_PREFIX
  {
    OrderOptions(amount * 100, "INR", RECEIPT_PREFIX + IntToString(itemId))
  }

  /** The receipt names its item: the id reads back from it, so two items never share one. */
  lemma ReceiptNamesItem(amount: int, itemId: ItemId, otherAmount: int, otherId: ItemId)
    ensures var r := OrderOptionsFor(amount, itemId).receipt;
      ParseIntString(r[|RECEIPT_PREFIX|..]) == itemId
    ensures OrderOptionsFor(amount, itemId).receipt == OrderOptionsFor(otherAmount, otherId).receipt
      ==> itemId == otherId
  {
    var r := OrderOptionsFor(amount, itemId).receipt;
    assert r[|RECEIPT_PREFIX|..] == IntToString(itemId);
    IntToStringRoundTrip(itemId);
    if OrderOptionsFor(amount, itemId).receipt == OrderOptionsFor(otherAmount, otherId).receipt {
      PrefixedIntInjective(RECEIPT_PREFIX, itemId, otherId);
    }
  }

  /** How `instance.orders.create` ends: an order, a falsy answer, or a throw. */
  datatype OrderCall = Created(order: string) | NoOrder | Threw

  function CreateOrder(amount: int, itemId: ItemId, orders: OrderOptions -> OrderCall): (r: Response)
    ensures r.status == 200 <==> orders(OrderOptionsFor(amount, itemId)).Created?
    ensures r.status == 200 ==> r.body == Order(orders(OrderOptionsFor(amount, itemId)).order)
    ensures r.status != 200 ==> r.status == 500
  {
    match orders(OrderOptionsFor(amount, itemId))
    case Created(order) => Response(200, Order(order))
    case NoOrder => Response(500, Message("Some error occured"))
    case Threw => Response(500, ServerError)
  }

  // ---------------------------------------------------------------------
  // verifyPayment
  // ---------------------------------------------------------------------

  datatype VerifyRequest = VerifyRequest(
    orderId: string,
    paymentId: string,
    signature: string,
    itemId: ItemId,
    shippingAddress: string)

  /** `${razorpayOrderId}|${razorpayPaymentId}`, the text the signature covers. */
  function SignedMessage(orderId: string, paymentId: string): string {
    orderId + "|" + paymentId
  }

  /** The message splits back into the two ids when the order id has no `|`. */
  lemma SignedMessageRoundTrip(orderId: string, paymentId: string)
    requires '|' !in orderId && '|' !in paymentId
    ensures Split(SignedMessage(orderId, paymentId), '|') == [orderId, paymentId]
  {
    var parts := [orderId, paymentId];
    assert Join(parts[1..], '|') == paymentId;
    assert Join(parts, '|') == SignedMessage(orderId, paymentId);
    SplitJoinRoundTrip(parts, '|');
  }

  /** So a signature over one (order, payment) pair signs no other pair. */
  lemma SignedMessageInjective(o1: string, p1: string, o2: string, p2: string)
    requires '|' !in o1 && '|' !in o2
    requires SignedMessage(o1, p1) == SignedMessage(o2, p2)
    ensures o1 == o2 && p1 == p2
  {
    var m := SignedMessage(o1, p1);
    assert m == SignedMessage(o2, p2);
    // a longer order id would put the separator inside the shorter pair's order id
    if |o1| < |o2| {
      NoSeparatorBefore(o2, p2, |o1|);
      assert false;
    } else if |o2| < |o1| {
      NoSeparatorBefore(o1, p1, |o2|);
      assert false;
    }
    assert m[..|o1|] == o1 && m[..|o2|] == o2;
    assert m[|o1| + 1..] == p1 && m[|o2| + 1..] == p2;
  }

  lemma NoSeparatorBefore(o: string, p: string, k: int)
    requires '|' !in o && 0 <= k < |o|
    ensures SignedMessage(o, p)[k] != '|'
  {
    assert SignedMessage(o, p)[k] == o[k];
  }

  /**
   * `UPDATE items SET payment_status = 'paid', razorpay_payment_id = $1,
   *  shipping_address = $2 WHERE id = $3`
   */
  function MarkPaid(items: seq<Item>, itemId: ItemId, paymentId: string, address: string): seq<Item> {
    seq(|items|, i requires 0 <= i < |items| =>
      if items[i].id == itemId
      then items[i].(paymentStatus := Paid, paymentId := Some(paymentId), shippingAddress := Some(address))
      else items[i])
  }

  /**
   * The row of the item is paid, carries the payment id and the address,
   * and keeps every other field, whatever its status, winner or earlier
   * payment state; other rows are untouched.
   */
  lemma MarkPaidSpec(items: seq<Item>, itemId: ItemId, paymentId: string, address: string)
    ensures var r := MarkPaid(items, itemId, paymentId, address);
      && |r| == |items|
      && (forall i :: 0 <= i < |items| && items[i].id == itemId ==>
            && r[i].paymentStatus == Paid
            && r[i].paymentId == Some(paymentId)
            && r[i].shippingAddress == Some(address)
            && r[i].(paymentStatus := items[i].paymentStatus, paymentId := items[i].paymentId,
                     shippingAddress := items[i].shippingAddress) == items[i])
      && (forall i :: 0 <= i < |items| && items[i].id != itemId ==> r[i] == items[i])
  {
  }

  /**
   * Nothing guards the status: in any table, a still-running auction with
   * no winner is marked paid, and stays running with no winner.
   */
  lemma OpenAuctionCanBePaid(items: seq<Item>, itemId: ItemId, paymentId: string, address: string)
    requires exists i ::
      && 0 <= i < |items| && items[i].id == itemId && items[i].status == Active
      && items[i].winnerId == None && items[i].paymentStatus == Unpaid
    ensures exists i ::
      && 0 <= i < |items| && items[i].id == itemId && items[i].paymentStatus == Unpaid
      && MarkPaid(items, itemId, paymentId, address)[i].paymentStatus == Paid
      && MarkPaid(items, itemId, paymentId, address)[i].status == Active
      && MarkPaid(items, itemId, paymentId, address)[i].winnerId == None
    ensures forall i :: 0 <= i < |items| && items[i].id == itemId ==>
      MarkPaid(items, itemId, paymentId, address)[i].paymentStatus == Paid
  {
    var i :| 0 <= i < |items| && items[i].id == itemId && items[i].status == Active &&
      items[i].winnerId == None && items[i].paymentStatus == Unpaid;
    assert MarkPaid(items, itemId, paymentId, address)[i].status == Active;
  }

  /**
   * The handler. `hmacHex(secret, message)` is the hex HMAC-SHA256 digest;
   * `updateFails` says whether the UPDATE throws. The digest is the only
   * gate: a row is paid afterwards only if it was paid before, or the
   * digest matched and the row is the item's.
   */
  method VerifyPayment(db: Database, req: VerifyRequest, secret: string,
                       hmacHex: (string, string) -> string, updateFails: bool)
    returns (resp: Response)
    requires db.Valid()
    modifies db
    ensures db.Valid()
    ensures db.bids == old(db.bids) && db.itemSeq == old(db.itemSeq) && db.bidSeq == old(db.bidSeq)
    ensures hmacHex(secret, SignedMessage(req.orderId, req.paymentId)) != req.signature ==>
      resp == Response(400, Message("Transaction not legit!")) && db.items == old(db.items)
    ensures hmacHex(secret, SignedMessage(req.orderId, req.paymentId)) == req.signature && updateFails ==>
      resp == Response(500, ServerError) && db.items == old(db.items)
    ensures hmacHex(secret, SignedMessage(req.orderId, req.paymentId)) == req.signature && !updateFails ==>
      && resp == Response(200, Verified(req.orderId, req.paymentId))
      && db.items == MarkPaid(old(db.items), req.itemId, req.paymentId, req.shippingAddress)
    ensures |db.items| == |old(db.items)|
    ensures forall i :: 0 <= i < |db.items| && db.items[i].paymentStatus == Paid ==>
      || old(db.items)[i].paymentStatus == Paid
      || (hmacHex(secret, SignedMessage(req.orderId, req.paymentId)) == req.signature
          && old(db.items)[i].id == req.itemId)
  {
    var digest := hmacHex(secret, SignedMessage(req.orderId, req.paymentId));
    if digest != req.signature {
      return Response(400, Message("Transaction not legit!"));
    }
    if updateFails {
      return Response(500, ServerError);
    }
    db.items := MarkPaid(db.items, req.itemId, req.paymentId, req.shippingAddress);
    assert SameIds(old(db.items), db.items);
    resp := Response(200, Verified(req.orderId, req.paymentId));
  }
}
