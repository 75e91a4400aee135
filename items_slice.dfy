/**
 * The Redux slice that holds the item list on the home page, and the
 * `fetchItems` thunk whose outcome drives it.
 */
module ItemsSlice {
  import opened Wrappers
  import Rows

  /** The three fields of the slice state. */
  datatype SliceState = SliceState(items: seq<Rows.Item>, loading: bool, error: Option<string>)

  /** The actions the thunk dispatches: pending, then fulfilled or rejected. */
  datatype Action = Pending | Fulfilled(payload: seq<Rows.Item>) | Rejected(message: string)

  const INITIAL: SliceState := SliceState([], false, None)

  /** The case reducers, as a function of the state before and the action. */
  function Reduce(s: SliceState, a: Action): (r: SliceState)
    ensures a.Pending? ==> r.loading && r.error == None && r.items == s.items
    ensures a.Fulfilled? ==> !r.loading && r.items == a.payload && r.error == s.error
    ensures a.Rejected? ==> !r.loading && r.error == Some(a.message) && r.items == s.items
  {
    match a
    case Pending => s.(loading := true, error := None)
    case Fulfilled(payload) => s.(loading := false, items := payload)
    case Rejected(message) => s.(loading := false, error := Some(message))
  }

  /**
   * How the request went: `fetch` threw, or a response came with its `ok`
   * flag and its body, which is None when `response.json()` throws.
   */
  datatype HttpOutcome = NetworkFailure | Reply(ok: bool, body: Option<seq<Rows.Item>>)

  /**
   * The thunk body. The body is parsed before `ok` is looked at, so a
   * failed response whose body is not JSON also ends in 'Network error'.
   */
  function FetchItemsResult(o: HttpOutcome): (a: Action)
    ensures !a.Pending?
  {
    match o
    case NetworkFailure => Rejected("Network error")
    case Reply(ok, body) =>
      match body
      case None => Rejected("Network error")
      case Some(data) => if !ok then Rejected("Failed to fetch items") else Fulfilled(data)
  }

  /** Which of the three outcomes each response leads to. */
  lemma FetchItemsResultSpec(o: HttpOutcome)
    ensures FetchItemsResult(o) == Rejected("Network error") <==>
      o.NetworkFailure? || o.body.None?
    ensures FetchItemsResult(o) == Rejected("Failed to fetch items") <==>
      o.Reply? && !o.ok && o.body.Some?
    ensures FetchItemsResult(o).Fulfilled? <==> o.Reply? && o.ok && o.body.Some?
    ensures FetchItemsResult(o).Fulfilled? ==> FetchItemsResult(o).payload == o.body.value
  {
  }

  /** A whole dispatch of the thunk ends with loading off, from any state. */
  lemma FetchSettles(s: SliceState, o: HttpOutcome)
    ensures var r := Reduce(Reduce(s, Pending), FetchItemsResult(o));
      && !r.loading
      && (r.error == None <==> FetchItemsResult(o).Fulfilled?)
      && (FetchItemsResult(o).Rejected? ==> r.items == s.items)
  {
  }

  /** The store's slice; each case reducer assigns its fields in place. */
  class Slice {
    var items: seq<Rows.Item>
    var loading: bool
    var error: Option<string>

    function State(): SliceState
      reads this
    {
      SliceState(items, loading, error)
    }

    constructor ()
      ensures State() == INITIAL
    {
      items := [];
      loading := false;
      error := None;
    }

    method OnPending()
      modifies this
      ensures State() == Reduce(old(State()), Pending)
    {
      loading := true;
      error := None;
    }

    method OnFulfilled(payload: seq<Rows.Item>)
      modifies this
      ensures State() == Reduce(old(State()), Fulfilled(payload))
    {
      loading := false;
      items := payload;
    }

    method OnRejected(payload: string)
      modifies this
      ensures State() == Reduce(old(State()), Rejected(payload))
    {
      loading := false;
      error := Some(payload);
    }

    /** `dispatch(fetchItems())`: pending, then the settled action. */
    method FetchItems(o: HttpOutcome)
      modifies this
      ensures State() == Reduce(Reduce(old(State()), Pending), FetchItemsResult(o))
      ensures !loading
    {
      OnPending();
      match FetchItemsResult(o)
      case Fulfilled(data) => OnFulfilled(data);
      case Rejected(message) => OnRejected(message);
    }
  }
}
