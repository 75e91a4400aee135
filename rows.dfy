/**
 * The rows of the `items` and `bids` tables and the relational operations the
 * queries of the backend are built from (WHERE, ORDER BY, LIMIT).
 * Money is integer cents, times are integer milliseconds.
 */
module Rows {
  import opened Wrappers

  type ItemId = int
  /** MongoDB user ids travel as their hexadecimal string form. */
  type UserId = string

  datatype Status = Active | Ended
  datatype PaymentStatus = Unpaid | Pending | Paid

  /**
   * The `image_url` column: NULL, a legacy single URL, or an array whose
   * entries may be NULL.
   */
  datatype ImageUrl = NoImage | Single(url: string) | Many(urls: seq<Option<string>>)

  datatype Item = Item(
    id: ItemId,
    name: string,
    description: string,
    sellerId: UserId,
    categoryId: int,
    startPrice: int,
    currentPrice: int,
    startTime: int,
    endTime: int,
    status: Status,
    winnerId: Option<UserId>,
    paymentStatus: PaymentStatus,
    paymentId: Option<string>,
    shippingAddress: Option<string>,
    imageUrl: ImageUrl)

  datatype Bid = Bid(id: int, itemId: ItemId, bidderId: UserId, amount: int, createdAt: int)

  /** The primary key: no two rows share an id. */
  ghost predicate UniqueIds(rows: seq<Item>) {
    forall i, j :: 0 <= i < |rows| && 0 <= j < |rows| && i != j ==> rows[i].id != rows[j].id
  }

  /** `WHERE p` over rows, keeping table order. */
  function Filter(rows: seq<Item>, p: Item -> bool): (r: seq<Item>)
    ensures |r| <= |rows|
    ensures forall x :: x in r <==> x in rows && p(x)
    ensures UniqueIds(rows) ==> UniqueIds(r)
  {
    if rows == [] then []
    else
      var rest := Filter(rows[1..], p);
      assert forall x :: x in rows[1..] ==> x in rows;
      if p(rows[0]) then
        assert UniqueIds(rows) ==> UniqueIds([rows[0]] + rest) by {
          if UniqueIds(rows) {
            UniqueIdsTail(rows);
            NotInTailIds(rows, rest);
            ConsUniqueIds(rows[0], rest);
          }
        }
        [rows[0]] + rest
      else
        assert UniqueIds(rows) ==> UniqueIds(rows[1..]) by {
          if UniqueIds(rows) { UniqueIdsTail(rows); }
        }
        rest
  }

  lemma UniqueIdsTail(rows: seq<Item>)
    requires UniqueIds(rows) && rows != []
    ensures UniqueIds(rows[1..])
  {
    forall i, j | 0 <= i < |rows| - 1 && 0 <= j < |rows| - 1 && i != j
      ensures rows[1..][i].id != rows[1..][j].id
    {
      assert rows[1..][i] == rows[i + 1] && rows[1..][j] == rows[j + 1];
    }
  }

  /** The first row's id occurs in no row drawn from the rest of a keyed table. */
  lemma NotInTailIds(rows: seq<Item>, rest: seq<Item>)
    requires UniqueIds(rows) && rows != []
    requires forall y :: y in rest ==> y in rows[1..]
    ensures forall y :: y in rest ==> y.id != rows[0].id
  {
    forall y | y in rest ensures y.id != rows[0].id {
      var k :| 0 <= k < |rows| - 1 && rows[1..][k] == y;
      assert rows[k + 1] == y;
    }
  }

  lemma ConsUniqueIds(x: Item, rest: seq<Item>)
    requires UniqueIds(rest)
    requires forall y :: y in rest ==> y.id != x.id
    ensures UniqueIds([x] + rest)
  {
    var r := [x] + rest;
    forall i, j | 0 <= i < |r| && 0 <= j < |r| && i != j ensures r[i].id != r[j].id {
      if i == 0 {
        assert r[j] == rest[j - 1];
      } else if j == 0 {
        assert r[i] == rest[i - 1];
      } else {
        assert r[i] == rest[i - 1] && r[j] == rest[j - 1];
      }
    }
  }

  ghost predicate SortedBy(rows: seq<Item>, key: Item -> int) {
    forall i, j :: 0 <= i < j < |rows| ==> key(rows[i]) <= key(rows[j])
  }

  /** Places `x` before the first row whose key is larger (stable). */
  function Insert(x: Item, rows: seq<Item>, key: Item -> int): (r: seq<Item>)
    requires SortedBy(rows, key)
    ensures |r| == |rows| + 1
    ensures forall y :: y in r <==> y == x || y in rows
    ensures multiset(r) == multiset(rows) + multiset{x}
    ensures SortedBy(r, key)
  {
    if rows == [] || key(x) <= key(rows[0]) then
      SortedCons(x, rows, key);
      [x] + rows
    else
      var rest := Insert(x, rows[1..], key);
      assert rows == [rows[0]] + rows[1..];
      SortedTail(rows, key);
      SortedCons(rows[0], rest, key);
      [rows[0]] + rest
  }

  lemma SortedTail(rows: seq<Item>, key: Item -> int)
    requires SortedBy(rows, key) && rows != []
    ensures forall y :: y in rows[1..] ==> key(rows[0]) <= key(y)
  {
    forall y | y in rows[1..] ensures key(rows[0]) <= key(y) {
      var k :| 0 <= k < |rows| - 1 && rows[1..][k] == y;
      assert rows[k + 1] == y;
    }
  }

  /** A row no larger than every row of a sorted sequence may go in front of it. */
  lemma SortedCons(x: Item, rows: seq<Item>, key: Item -> int)
    requires SortedBy(rows, key)
    requires forall y :: y in rows ==> key(x) <= key(y)
    ensures SortedBy([x] + rows, key)
  {
    var r := [x] + rows;
    forall i, j | 0 <= i < j < |r| ensures key(r[i]) <= key(r[j]) {
      assert r[j] == rows[j - 1];
      if i > 0 {
        assert r[i] == rows[i - 1];
      }
    }
  }

  /** `ORDER BY key ASC`; the database leaves ties unordered, this keeps table order. */
  function SortBy(rows: seq<Item>, key: Item -> int): (r: seq<Item>)
    ensures |r| == |rows|
    ensures forall y :: y in r <==> y in rows
    ensures multiset(r) == multiset(rows)
    ensures SortedBy(r, key)
    ensures UniqueIds(rows) ==> UniqueIds(r)
  {
    if rows == [] then []
    else
      var rest := SortBy(rows[1..], key);
      assert rows == [rows[0]] + rows[1..];
      assert UniqueIds(rows) ==> UniqueIds(Insert(rows[0], rest, key)) by {
        if UniqueIds(rows) {
          UniqueIdsTail(rows);
          NotInTailIds(rows, rest);
          InsertUniqueIds(rows[0], rest, key);
        }
      }
      Insert(rows[0], rest, key)
  }

  lemma {:induction false} InsertUniqueIds(x: Item, rows: seq<Item>, key: Item -> int)
    requires SortedBy(rows, key) && UniqueIds(rows)
    requires forall y :: y in rows ==> y.id != x.id
    ensures UniqueIds(Insert(x, rows, key))
  {
    if rows == [] || key(x) <= key(rows[0]) {
      ConsUniqueIds(x, rows);
    } else {
      UniqueIdsTail(rows);
      assert forall y :: y in rows[1..] ==> y in rows;
      InsertUniqueIds(x, rows[1..], key);
      var rest := Insert(x, rows[1..], key);
      forall y | y in rest ensures y.id != rows[0].id {
        if y != x {
          var k :| 0 <= k < |rows| - 1 && rows[1..][k] == y;
          assert rows[k + 1] == y;
        }
      }
      ConsUniqueIds(rows[0], rest);
    }
  }

  /** `LIMIT n` */
  function Take(rows: seq<Item>, n: nat): (r: seq<Item>)
    ensures |r| == if n < |rows| then n else |rows|
    ensures r == rows[..|r|]
  {
    if n < |rows| then rows[..n] else rows
  }

  /** `SELECT * FROM items WHERE id = $1` (at most one row, by the primary key). */
  function FindById(rows: seq<Item>, id: ItemId): (r: Option<Item>)
    ensures r.None? <==> forall i :: 0 <= i < |rows| ==> rows[i].id != id
    ensures r.Some? ==> r.value in rows && r.value.id == id
  {
    if rows == [] then None
    else if rows[0].id == id then Some(rows[0])
    else
      var rest := FindById(rows[1..], id);
      assert forall i :: 1 <= i < |rows| ==> rows[i] == rows[1..][i - 1];
      rest
  }

  /** Two versions of a table that hold the same ids at the same positions. */
  ghost predicate SameIds(a: seq<Item>, b: seq<Item>) {
    |a| == |b| && forall i :: 0 <= i < |a| ==> a[i].id == b[i].id
  }

  /** An UPDATE that leaves every id alone keeps the primary key intact. */
  lemma SameIdsKeepUnique(a: seq<Item>, b: seq<Item>)
    requires SameIds(a, b) && UniqueIds(a)
    ensures UniqueIds(b)
  {
  }

  /** The `id` column of a result set. */
  function IdsOf(rows: seq<Item>): (ids: seq<ItemId>)
    ensures |ids| == |rows| && forall j :: 0 <= j < |rows| ==> ids[j] == rows[j].id
  {
    seq(|rows|, j requires 0 <= j < |rows| => rows[j].id)
  }

  ghost function Elements(s: seq<int>): set<int> {
    set j | 0 <= j < |s| :: s[j]
  }

  ghost predicate Distinct(s: seq<int>) {
    forall j, k :: 0 <= j < k < |s| ==> s[j] != s[k]
  }

  /** The ids of a table with a primary key are pairwise different. */
  lemma UniqueIdsDistinct(rows: seq<Item>)
    requires UniqueIds(rows)
    ensures Distinct(IdsOf(rows))
  {
  }
}
