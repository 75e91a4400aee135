# IntelliBid auction lifecycle, in Dafny

IntelliBid is an online auction marketplace. Its backend keeps items and bids in PostgreSQL tables. A BullMQ queue holds one delayed job per auction, and that job closes the auction when its end time arrives. A once-a-minute cron job closes whatever expired in the meantime. Razorpay handles payment for a won item. This project models that lifecycle as the code implements it, plus the self-contained helpers of the services and the React frontend, and proves properties of the model.

The model has these parts.

**The tables.**
- The items table is a sequence of `Item` rows with unique ids (the primary key). The bids table is a sequence of `Bid` rows (`rows.dfy`).
- They live in a `Store.Database` object together with the two SERIAL counters that hand out new ids (`store.dfy`).
- Every SQL statement is one atomic step on that object.
- Money is integer cents and times are integer milliseconds.
- `status` is `Active | Ended` and `payment_status` is `Unpaid | Pending | Paid`. `winner_id` is an `Option`.

**The queue and its worker (`auction_queue.dfy`).**
- The queue is a map from job id to job.
- `add` with a `jobId` that is already held is ignored.
- A handler that returns removes its job (`removeOnComplete`). A handler that throws leaves its job in the failed state.
- `scheduleAuctionEnd` clamps the delay at zero and uses the key `auction-<id>`.
- The worker runs a compare-and-swap close, then picks the highest bid, then assigns the winner and the pending payment.
- `syncActiveAuctions` is the keyset-pagination loop that re-schedules every active auction in batches of 10.

**The cron closer (`auction_closer.dfy`).** A selection of the expired ids, then one guarded UPDATE per id.

**The item service (`item_service.dfy`).**
- URL signing of `image_url`.
- The read queries, modelled as filter, sort and limit over the rows.
- Item creation with its defaults.
- The two-statement bid transaction with rollback.
- The base data of the recommender, with its fallback from the vector path to category candidates.
- `toPgVectorLiteral`.

**The payment controller (`payment_controller.dfy`).** The Razorpay order options, and the `paid` write behind the HMAC signature check. HMAC-SHA256 (RFC 2104) is a function parameter.

**The recommendation service (`recommendation_service.dfy`).** The first four candidates, out of a request for 20.

**The frontend.**
- The items slice of the Redux store and the `fetchItems` thunk (`items_slice.dfy`).
- The countdown timer (`countdown_timer.dfy`).
- The attribute map of the edit page (`edit_item.dfy`).
- The bid box with its `parseInt`, warning, disabled button and submit guard (`bidding_form.dfy`).

**Shared modules.** `wrappers.dfy` holds `Option` and `Result`. `text.dfy` holds decimal rendering and reading, plus `join`/`split`.

**Inputs you cannot see become parameters.**
- The clock is a `now` argument.
- The Mongo user lookup is a function `UserId -> Lookup`.
- The S3 presigner is a function `string -> Option<string>`. It answers `None` where `generatePresignedUrl` yields null.
- The HMAC digest is a function `(secret, message) -> hex`.
- The Razorpay order call is a function `OrderOptions -> OrderCall`.
- The vector-similarity lookup is an `Option<seq<Item>>`: the list, or `None` when it threw.
- Each HTTP response the frontend sees is a datatype argument.
- Where a statement can fail, a fault argument says which one fails.

## Model

| member | source | states |
|---|---|---|
| AuctionQueue.FinalDelay | backend/jobs/auctionQueue.js:17-21 | The delay is never negative. It is `endTime - now` when that is positive and 0 otherwise, so the job never fires before the end time. |
| AuctionQueue.FireTime | backend/jobs/auctionQueue.js:17-28 | A job becomes ready at the end time, or at once when the end time has passed. |
| AuctionQueue.JobKeyInjective | backend/jobs/auctionQueue.js:29 | Two items never share a job id `auction-<id>`. |
| AuctionQueue.AddJob | backend/jobs/auctionQueue.js:23-31 | Adding under a held id leaves the queue as it was. Adding under a free id adds exactly that job and keeps all others. |
| AuctionQueue.ReAddKeepsFirst | backend/jobs/auctionQueue.js:23-31 | Scheduling an item twice while its job is pending leaves one job, the first one with its first fire time. |
| AuctionQueue.ReAddAfterCompletion | backend/jobs/auctionQueue.js:29-30 | Once a completed job is removed, its id can be scheduled again with the new job. |
| AuctionQueue.JobQueue.constructor | backend/jobs/auctionQueue.js:14 | The queue starts with no jobs. |
| AuctionQueue.JobQueue.Add | backend/jobs/auctionQueue.js:24-32 | The queue becomes the insert-if-absent of the job. The method reports whether the id was free. |
| AuctionQueue.JobQueue.Complete | backend/jobs/auctionQueue.js:30 | A job whose handler returned is removed. |
| AuctionQueue.JobQueue.Fail | backend/jobs/auctionQueue.js:88-90 | A job whose handler threw stays in the queue, marked failed, and nothing else changes. |
| AuctionQueue.ScheduleAuctionEnd | backend/jobs/auctionQueue.js:17-32 | The queue gains the job `auction-<id>`, firing at the clamped time, unless that id is already held. |
| AuctionQueue.HighestBid | backend/jobs/auctionQueue.js:63-64 | None exactly when the item has no bid. Otherwise it is a bid of that item whose amount is at least every other bid of the item. |
| AuctionQueue.ExpireItem | backend/jobs/auctionQueue.js:40-94 | One run of the worker changes only the items table, and leaves it and its outcome exactly as `Expire` describes. |
| AuctionQueue.RunJob | backend/jobs/auctionQueue.js:40-94 | The worker's effect on the table, plus the job's fate: removed when the handler returned, kept as failed when it threw. |
| AuctionQueue.NoDueRowsNoneDue | backend/jobs/auctionQueue.js:47-58 | The RETURNING of the conditional UPDATE is empty exactly when no row of the item is active and past its end. |
| AuctionQueue.ExpireOnlyWhenDue | backend/jobs/auctionQueue.js:47-58 | The handler stops early exactly when no row is due, and then changes nothing, neither winner nor payment status. |
| AuctionQueue.ExpireTouchesOnlyItsItem | backend/jobs/auctionQueue.js:47-76 | Rows of other items are untouched. Of the item's own row, only status, winner and payment status can change. |
| AuctionQueue.CloseDueLocal | backend/jobs/auctionQueue.js:47-53 | The conditional close writes only `status`, and only of the item's row. |
| AuctionQueue.AssignWinnerLocal | backend/jobs/auctionQueue.js:73-76 | The winner UPDATE writes only `winner_id` and `payment_status`, and only of the item's row. |
| AuctionQueue.ExpireRowEffect | backend/jobs/auctionQueue.js:47-86 | A due row ends. It also gets the winner and `pending` exactly when the winner was found. Rows that are not due stay as they were. |
| AuctionQueue.ExpireOutcome | backend/jobs/auctionQueue.js:63-90 | Once the item is due there are four outcomes. No bids: the item just ends. Unknown bidder: it ends with no winner. Failed lookup: the run errors. Otherwise the notified winner is the bidder of a maximal-amount bid of the item. |
| AuctionQueue.RedeliveredJobIsNoOp | backend/jobs/auctionQueue.js:47-58 | After a run that got past the compare-and-swap, a second run changes nothing and assigns no second winner. This holds at any time, with any bids and any user lookup. |
| AuctionQueue.ActiveBatchSpec | backend/jobs/auctionQueue.js:110-122 | A batch holds at most 10 active rows, all above the cursor, with strictly ascending ids. It is empty exactly when no active id is above the cursor. It contains every active id up to its last one. |
| AuctionQueue.BatchEmptyIff | backend/jobs/auctionQueue.js:117-122 | The loop stops on an empty batch exactly when no active item is left above the cursor. |
| AuctionQueue.QueueSyncedStep | backend/jobs/auctionQueue.js:125-126 | Scheduling one unsynced item keeps the jobs that were already there. Its job fires at its end time unless the id was already held. |
| AuctionQueue.ScheduleBatch | backend/jobs/auctionQueue.js:124-126 | The queue becomes `ScheduleAll`: one `scheduleAuctionEnd` per row of the batch. |
| AuctionQueue.ScheduleAllSynced | backend/jobs/auctionQueue.js:124-126 | Scheduling a batch of unsynced rows extends the synced set by the batch's ids. Earlier jobs stay untouched. |
| AuctionQueue.SyncAdvance | backend/jobs/auctionQueue.js:117-130 | A non-empty batch moves the cursor strictly up. The scheduled ids stay distinct and cover exactly the active ids up to the new cursor. Fewer active ids remain above it. |
| AuctionQueue.SyncActiveAuctions | backend/jobs/auctionQueue.js:98-137 | The loop terminates. Every active item is scheduled exactly once, and `totalSynced` equals the number of active items. The queue holds a job for each active item, keeping jobs already pending. Because stored ids are positive, the cursor's start at 0 passes over no active item. |
| AuctionQueue.ActiveIdsAboveZero | backend/jobs/auctionQueue.js:101-113 | When every id is positive, the active ids above the initial cursor 0 are all the active ids. |
| AuctionCloser.SelectExpiredSpec | backend/jobs/auctionCloser.js:14-16 | The selection holds exactly the ids of the active rows past their end, each once. It is empty exactly when nothing has expired. |
| AuctionCloser.CloseExpiredAuctions | backend/jobs/auctionCloser.js:12-47 | An empty selection issues no UPDATE. Otherwise there is one UPDATE per selected id, in order. A throwing statement is swallowed by the `catch`: a failing SELECT leaves the table as it was, and a failing UPDATE leaves exactly the earlier selected ids ended. With no throw the table becomes `CloseAllExpired` of the old table. Bids and the counters are untouched. |
| AuctionCloser.UpdatesBeforeFault | backend/jobs/auctionCloser.js:12-47 | The number of UPDATEs that complete: all of them without a throw, none when the SELECT throws, and the ones before the throwing UPDATE otherwise. |
| AuctionCloser.EndAllSelectedIsClose | backend/jobs/auctionCloser.js:14-33 | Issuing the UPDATE for every selected id ends exactly the expired rows. |
| AuctionCloser.NextRunFinishesPartialClose | backend/jobs/auctionCloser.js:10-47 | After a run cut short by a throw, the next full run, at the same time or later, leaves the table exactly as a single full run at that time would. The selected rows left active are ended then. |
| AuctionCloser.CloseAllExpiredEffect | backend/jobs/auctionCloser.js:26-33 | After a run nothing is expired. Selected rows are ended, and of them only `status` changed. Other rows are exactly as before. |
| AuctionCloser.CloseTwiceIsOnce | backend/jobs/auctionCloser.js:29-31 | A second run over the result selects nothing and changes nothing. |
| AuctionCloser.LaterRunSubsumes | backend/jobs/auctionCloser.js:10-31 | Two runs, the later one at `now2`, leave the table the later run alone would. |
| AuctionCloser.CloserPreemptsWorker | backend/jobs/auctionCloser.js:26-33 | After the cron job has closed an item, the queue worker's compare-and-swap finds nothing. The item then never gets a winner or a pending payment. |
| ItemService.ToPgVectorLiteral | backend/services/itemService.js:19-21 | The literal is bracketed. |
| ItemService.PgVectorLiteralRoundTrip | backend/services/itemService.js:19-21 | Splitting the inside of the literal at commas gives back the numbers it was built from. |
| ItemService.SignOneIsSignedOrOriginal | backend/services/itemService.js:37-39 | Each entry is the signer's answer or the original URL, and is never empty for a non-empty URL. |
| ItemService.SignThenDropNulls | backend/services/itemService.js:34-45 | Signing with nulls for falsy entries and then dropping the nulls equals signing the truthy entries, in order. |
| ItemService.AttachPresignedUrlSpec | backend/services/itemService.js:27-47 | A falsy `image_url` returns the item unchanged. Otherwise only `image_url` changes: it becomes an array with one entry per truthy input URL, in order, each the signed URL or the original. |
| ItemService.SingleUrlBecomesArray | backend/services/itemService.js:31 | A legacy single URL becomes a one-entry array. |
| ItemService.GetItemsBySellerSpec | backend/services/itemService.js:52-56 | The result is every row of the seller, signed, and nothing else. |
| ItemService.GetItemByIdSpec | backend/services/itemService.js:61-66 | Null exactly when no row has the id. Otherwise the signed row with that id. |
| ItemService.ActiveRowsSpec | backend/services/itemService.js:71-83 | The result is exactly the active rows whose end is ahead, each as often as in the table, ordered by ascending end time. |
| ItemService.CandidateRowsSpec | backend/services/itemService.js:221-235 | At most `limit` rows, all active and not ended, of the category and not the excluded id. They are ordered by descending start time. When fewer than `limit` come back, that is all of them. No candidate left out started later than the last one returned. |
| ItemService.CandidateRowsOrdered | backend/services/itemService.js:222-229 | The bound, membership and order part of the candidate query. |
| ItemService.CandidateRowsTopK | backend/services/itemService.js:228-229 | The completeness part of the candidate query: the rows kept are the newest. |
| ItemService.RecommendationBaseDataSpec | backend/services/itemService.js:277-294 | It fails with "Item not found" exactly when the item is missing. Otherwise the vector list is used when it came back, and the item's category candidates when it threw. |
| ItemService.CreateItem | backend/services/itemService.js:89-188 | Exactly one row is appended, under the next id, and bids are untouched. The call fails exactly when there are images and an upload or the image UPDATE throws. The INSERT is then already committed, so the new row stays in the table without images. Otherwise the row carries the uploaded URLs and the returned item is that row, signed. |
| ItemService.NewRowDefaults | backend/services/itemService.js:102-126 | `current_price` defaults to the start price and `start_time` to now. The status is always active, with no winner and no payment. |
| ItemService.CreatedItemListedWhileOpen | backend/services/itemService.js:124-126 | A new item shows in the active listing exactly while its end time is ahead. |
| ItemService.UpdateItemBid | backend/services/itemService.js:193-219 | Success exactly when no statement fails. Then exactly one bid `(amount, item, bidder)` is appended, that item's price is set, and both are returned. On any failure the ROLLBACK leaves both tables as they were. |
| ItemService.PriceOverwrittenUnconditionally | backend/services/itemService.js:202-203 | The price becomes the bid amount whatever it was. Only that item's `current_price` changes. |
| ItemService.LowerBidLowersPrice | backend/services/itemService.js:202-203 | For any table, a bid below the item's current price becomes that row's price, which is then lower than before: there is no comparison. |
| ItemService.CommittedBidReturnsNewPrice | backend/services/itemService.js:202-211 | For an existing item, the returned row is the item at the new price. |
| PaymentController.OrderOptionsFor | backend/controllers/paymentController.js:16-20 | The amount is `amount * 100` (a whole number of paise), the currency is INR, and the receipt begins `receipt_item_`. |
| PaymentController.ReceiptNamesItem | backend/controllers/paymentController.js:19 | The item id reads back from the receipt, so two items never share a receipt. |
| PaymentController.CreateOrder | backend/controllers/paymentController.js:12-31 | 200 with the order exactly when the order call gives one. Otherwise 500. |
| PaymentController.SignedMessageRoundTrip | backend/controllers/paymentController.js:46-48 | The signed message `orderId|paymentId` splits back into the two ids. |
| PaymentController.SignedMessageInjective | backend/controllers/paymentController.js:46-48 | A message names one (order, payment) pair only, when the order id has no `|`. |
| PaymentController.MarkPaidSpec | backend/controllers/paymentController.js:55-62 | The item's row becomes paid and carries the payment id and address. Every other field and every other row stay. |
| PaymentController.OpenAuctionCanBePaid | backend/controllers/paymentController.js:55-62 | The UPDATE checks neither status nor winner. In any table, every row of the item becomes paid, and an open, unpaid row with no winner is paid while it stays open with no winner. |
| PaymentController.VerifyPayment | backend/controllers/paymentController.js:34-73 | A digest mismatch gives 400 and no write. A failing UPDATE gives 500 and no write. Otherwise the item is marked paid and the response is 200 with both ids. The digest is the only gate: a row is paid afterwards only if it was paid before, or the digest matched and the row is the item's. |
| RecommendationService.TopRecommendations | backend/services/recommendationService.js:17-22 | Empty input gives `[]`. Otherwise the result is an order-preserving prefix of length min(4, n). |
| RecommendationService.RecommendationsSpec | backend/services/recommendationService.js:11-22 | A missing item fails with "Item not found". Otherwise the result is a prefix of at most 4 of the base candidates, all of them when fewer than 4. It is the first four of the vector list when that came back. |
| RecommendationService.CandidateRowsTake | backend/services/recommendationService.js:12-15 | The four newest candidates are the first four of the twenty asked for. |
| RecommendationService.FallbackIsNewestFour | backend/services/recommendationService.js:11-22 | When the vector lookup throws, the result is the category query with limit 4. |
| ItemsSlice.Reduce | frontend/src/features/itemsSlice.js:26-37 | Pending sets loading and clears the error, keeping the items. Fulfilled stores the payload and clears loading, keeping the error. Rejected stores the message and clears loading, keeping the items. |
| ItemsSlice.FetchItemsResult | frontend/src/features/itemsSlice.js:5-14 | The thunk always settles as fulfilled or rejected. |
| ItemsSlice.FetchItemsResultSpec | frontend/src/features/itemsSlice.js:5-14 | 'Network error' exactly when the fetch or the JSON parse threw. 'Failed to fetch items' exactly for a parsed non-ok response. Fulfilled with the body exactly for an ok response. |
| ItemsSlice.FetchSettles | frontend/src/features/itemsSlice.js:26-37 | From any state, pending followed by the settled action ends with loading off. The error is null exactly on success. A rejection keeps the items. |
| ItemsSlice.Slice.constructor | frontend/src/features/itemsSlice.js:18-22 | The initial state is no items, not loading, no error. |
| ItemsSlice.Slice.OnPending | frontend/src/features/itemsSlice.js:26-29 | The fields become `Reduce(old, Pending)`. |
| ItemsSlice.Slice.OnFulfilled | frontend/src/features/itemsSlice.js:30-33 | The fields become `Reduce(old, Fulfilled(payload))`. |
| ItemsSlice.Slice.OnRejected | frontend/src/features/itemsSlice.js:34-37 | The fields become `Reduce(old, Rejected(message))`. |
| ItemsSlice.Slice.FetchItems | frontend/src/features/itemsSlice.js:5-37 | A dispatch applies pending, then the settled action, and ends with loading off. |
| CountdownTimer.Remaining | frontend/src/components/CountDownTimer.jsx:17-20 | The remaining time is never negative: it is the gap to the target, or 0. |
| CountdownTimer.RemainingMonotone | frontend/src/components/CountDownTimer.jsx:19-25 | For a fixed target, the remaining time never grows. It reaches 0 exactly at the target and stays 0. |
| CountdownTimer.Decompose | frontend/src/components/CountDownTimer.jsx:33-37 | `days*86400 + hours*3600 + minutes*60 + seconds` is the whole seconds left, with hours < 24 and minutes, seconds < 60. |
| CountdownTimer.Pad | frontend/src/components/CountDownTimer.jsx:39 | The text is at least two digits. It is "0" and the digit below 10, and the plain decimal from 10 up. |
| CountdownTimer.PadRoundTrip | frontend/src/components/CountDownTimer.jsx:39 | The padded text still reads as the number. |
| CountdownTimer.DaysShownOnlyWhenPositive | frontend/src/components/CountDownTimer.jsx:41-45 | The `d` day mark appears exactly when at least one day is left. |
| CountdownTimer.Countdown.constructor | frontend/src/components/CountDownTimer.jsx:9-19 | The timer starts with the clamped remaining time, running, with no completion yet. |
| CountdownTimer.Countdown.Tick | frontend/src/components/CountDownTimer.jsx:19-26 | A tick stores the clamped remaining time and stops the interval exactly when that is 0. `onComplete` fires at most once, and after the stop nothing changes. |
| EditItem.MergeAttributes | frontend/src/pages/EditItem.jsx:85-88 | The keys are the old keys plus the returned fields, except a field named after an `Object.prototype` member (`constructor`, `toString`, `__proto__` and the rest). Such a field reads as the inherited member, which is truthy, so it gets no key of its own. Every existing value is kept, and every new key maps to "". |
| EditItem.MergeCoversFields | frontend/src/pages/EditItem.jsx:83-89 | After the merge a field in the list has a value exactly when it had one before or is not named after an `Object.prototype` member. So every ordinarily named field has one. |
| EditItem.SetAttribute | frontend/src/pages/EditItem.jsx:120 | The key is set to the value, no other key is added, and other keys keep their values. |
| EditItem.AttributeChangeIsLocal | frontend/src/pages/EditItem.jsx:119-121 | The presence and value of every other key are unchanged. |
| EditItem.ToAttributes | frontend/src/pages/EditItem.jsx:55-57 | The value map has exactly the keys of `dynamic_details`. |
| EditItem.ToAttributesValues | frontend/src/pages/EditItem.jsx:56 | Every pair of `dynamic_details` is in the map with its own value. |
| EditItem.EditItemForm.constructor | frontend/src/pages/EditItem.jsx:16-29 | The `useState` initial values: empty name, description, field list and value map, no category, loading on, and no message. |
| EditItem.EditItemForm.Load | frontend/src/pages/EditItem.jsx:43-65 | Someone else's item changes no field of the form. A failed load sets the message, stops loading, and changes nothing else. Otherwise name, description and category are filled and loading stops, with the message kept. When `dynamic_details` is present, the field list is its `Object.keys` and each key maps to its own value. |
| EditItem.EditItemForm.GenerateAttributes | frontend/src/pages/EditItem.jsx:72-99 | Name, description, category, loading and message never change. Without a name and a category, or for an empty, non-array or failed response, neither fields nor values change. Otherwise the fields are replaced and the values merged. |
| EditItem.EditItemForm.AttributeChange | frontend/src/pages/EditItem.jsx:119-121 | The values become `SetAttribute(old, key, value)`. The field list, name, description, category, loading and message are unchanged. |
| BiddingForm.ParseIntRoundTrip | frontend/src/components/BiddingForm.jsx:12 | `parseInt` reads back any integer written in decimal. |
| BiddingForm.ParseIntTruncates | frontend/src/components/BiddingForm.jsx:12 | A decimal entry is cut at the point. |
| BiddingForm.NoDigitsIsNaN | frontend/src/components/BiddingForm.jsx:12 | Text with no leading digit or sign parses to NaN. |
| BiddingForm.ComparisonsSplit | frontend/src/components/BiddingForm.jsx:15-25 | For a number, exactly one of `<=` and `>` holds. For NaN neither does. |
| BiddingForm.SendIffNumberAbovePrice | frontend/src/components/BiddingForm.jsx:12-25 | A request goes out exactly for a parsed number above the price. NaN neither warns nor sends. |
| BiddingForm.EqualBidRejected | frontend/src/components/BiddingForm.jsx:15-51 | A bid equal to the price warns, disables the button and is not sent. |
| BiddingForm.InitialFormDisabledWithoutWarning | frontend/src/components/BiddingForm.jsx:5-6 | The empty initial entry compares as 0, so the button starts disabled with no warning. |
| BiddingForm.Form.constructor | frontend/src/components/BiddingForm.jsx:4-6 | It starts with an empty entry and no warning. |
| BiddingForm.Form.HandleBidChange | frontend/src/components/BiddingForm.jsx:11-20 | The stored value is `parseInt(text)`. The warning is set exactly when that value is at most the price. Afterwards the button is disabled exactly when the warning shows. |
| BiddingForm.Form.HandleBidSubmit | frontend/src/components/BiddingForm.jsx:22-35 | A request (item id, amount) is produced exactly when the stored amount is above the price. |

## Left out

**Outside the model**
- Redis, the BullMQ connection, and the real-time waiting of delays. The queue is only its map of jobs.
- Log lines and the 50 ms pause. The pause in the sync loop has no effect on the tables.
- The e-mail itself. `sendWinnerEmail` catches its own errors, so the model records only its arguments. The Mongo user lookup is a parameter.
- S3 upload and the image processing. `randomName` is random. `extractKeyFromUrl` parses URLs. The uploads are a list of object URLs plus a flag saying whether one of them, or the image UPDATE, throws. The signer is a parameter.
- The embedding of a new item: the `description_embedding` UPDATE in `createItem`, `embedText`, and the pgvector distance order. That UPDATE writes only a column the model does not hold and cannot fail the call. The vector path is "a list, or it threw".
- The HMAC-SHA256 digest and the Razorpay order call. Both are foreign cryptography or network calls, and are parameters.
- Floating point:
  - a fractional `amount * 100` is not modelled: amounts are whole units;
  - the frontend's `current_price` is compared in cents.
- Concurrency between the cron closer, the queue worker and bid writes, and row locking. Each SQL statement is one atomic step of a sequential model. The cron job's per-id UPDATE thus always finds the row it selected.
- Tie order among rows with equal sort keys in `ORDER BY`. The model fixes one order (a stable insertion sort), where PostgreSQL leaves it unspecified.

**Not part of this model**
- The create handler of `itemsController.js` and the upload middleware. The handler passes `processedImage`, while `createItem` reads `processedImages`. The route also stores files with `upload.array`, while `processImage` looks only at `req.file`. So on the routed path no image reaches `createItem`, which `ItemService.CreateItem` covers as its empty `uploadedUrls` case.
- The HTTP routing and the other controllers. `PATCH /bidup/:id` is routed to a handler that answers 501, so `updateItemBid` is modelled as a service operation only.
- The rendering, `handleGenerateDescription`, `handleSubmit` and the progress flags (`isGenAttributes`) of the edit page.

**Simplifications in particular members**
- AuctionQueue.SyncActiveAuctions: the clock is one value for the whole sync, and the table is static while it runs. The source promises nothing when rows change mid-sync. The `try/catch` around the loop, which swallows a failing query, is not modelled, since the model's queries do not fail.
- AuctionQueue.ExpireItem: only the user lookup can fail. A failing SQL statement of the worker is not modelled. Such a failure would leave earlier UPDATEs committed, because there is no BEGIN/COMMIT.
- AuctionQueue.FinalDelay: an end time that does not parse gives `NaN` in the source, hence a delay of 0. The model takes end times as numbers.
- AuctionCloser.CloseExpiredAuctions: `updates` counts the UPDATE statements that completed, not the rows they changed. In the sequential model the two are equal.
- ItemService.UpdateItemBid: the bid id is taken from its sequence even when the transaction fails, since a sequence is not rolled back. The row's `created_at` is the `now` parameter.
- ItemService.CreateItem: the request fields are typed values. A missing `name` or a non-numeric price, which the database would reject, is outside the model.
- ItemService.NewRowDefaults: `payment_status` of a new row is taken as `Unpaid`. This is the column default, which the source does not show.
- PaymentController.VerifyPayment: `shippingAddress` is modelled as a string, whatever JSON the client sends.
- BiddingForm.ParseInt: leading whitespace, `0x` prefixes, `Infinity` and exponent notation are not modelled. A number input does not send them.
- EditItem.EditItemForm.Load: `dynamic_details` arrives as key/value pairs, and the model requires distinct keys, as a parsed JSON object's `Object.keys` always are.
- EditItem.ToAttributes: only string values are modelled. Key order is the order of `dynamic_details`, where `Object.keys` would put integer-like keys first.
