/**
 * Recommendations for an item page: the first four candidates of the
 * base data, which is requested with a limit of 20.
 */
module RecommendationService {
  import opened Wrappers
  import opened Rows
  import ItemService

  const BASE_LIMIT: nat := 20
  const TOP: nat := 4

  /** `if (!candidates.length) return []; return candidates.slice(0, 4);` */
  function TopRecommendations(candidates: seq<Item>): (r: seq<Item>)
    ensures candidates == [] ==> r == []
    ensures |r| == if |candidates| < TOP then |candidates| else TOP
    ensures r == candidates[..|r|]
  {
    if |candidates| == 0 then [] else Take(candidates, TOP)
  }

  /** Fails when getRecommendationBaseData throws ("Item not found"). */
  function GetRecommendationsForItem(items: seq<Item>, itemId: ItemId, now: int,
                                     sign: string -> Option<string>, similar: Option<seq<Item>>)
    : Result<seq<Item>>
  {
    match ItemService.GetRecommendationBaseData(items, itemId, BASE_LIMIT, now, sign, similar)
    case Failure(e) => Failure(e)
    case Success(data) => Success(TopRecommendations(data.candidates))
  }

  /**
   * When the vector lookup threw, the recommendations are the four newest
   * category candidates: cutting 20 down to 4 is the same as asking for 4.
   */
  lemma FallbackIsNewestFour(items: seq<Item>, itemId: ItemId, now: int, sign: string -> Option<string>)
    requires UniqueIds(items)
    requires exists i :: 0 <= i < |items| && items[i].id == itemId
    ensures var r := GetRecommendationsForItem(items, itemId, now, sign, None);
      r.Success? &&
      exists i :: 0 <= i < |items| && items[i].id == itemId &&
        r.value == ItemService.GetCandidateItems(items, items[i].categoryId, itemId, TOP, now, sign)
  {
    ItemService.RecommendationBaseDataSpec(items, itemId, BASE_LIMIT, now, sign, None);
    var data := ItemService.GetRecommendationBaseData(items, itemId, BASE_LIMIT, now, sign, None).value;
    var i :| 0 <= i < |items| && items[i].id == itemId &&
      data.candidates == ItemService.GetCandidateItems(items, items[i].categoryId, itemId, BASE_LIMIT, now, sign);
    var c := items[i].categoryId;
    var long := ItemService.CandidateRows(items, c, itemId, BASE_LIMIT, now);
    CandidateRowsTake(items, c, itemId, now);
    MapAttachTake(long, TOP, sign);
    assert TopRecommendations(data.candidates) == Take(ItemService.MapAttach(long, sign), TOP);
  }

  /** The four newest candidates are the first four of the twenty newest. */
  lemma CandidateRowsTake(items: seq<Item>, categoryId: int, excludedId: ItemId, now: int)
    ensures ItemService.CandidateRows(items, categoryId, excludedId, TOP, now)
         == Take(ItemService.CandidateRows(items, categoryId, excludedId, BASE_LIMIT, now), TOP)
  {
    var sorted := ItemService.CandidatesByStart(items, categoryId, excludedId, now);
    assert ItemService.CandidateRows(items, categoryId, excludedId, TOP, now) == Take(sorted, TOP);
    assert ItemService.CandidateRows(items, categoryId, excludedId, BASE_LIMIT, now) == Take(sorted, BASE_LIMIT);
    CandidatePrefix(Take(sorted, BASE_LIMIT), Take(sorted, TOP));
  }

  lemma CandidatePrefix(long: seq<Item>, short: seq<Item>)
    requires |short| <= |long| && short == long[..|short|]
    requires |short| == if |long| < TOP then |long| else TOP
    ensures short == Take(long, TOP)
  {
  }

  /** Signing commutes with cutting the list short. */
  lemma MapAttachTake(rows: seq<Item>, n: nat, sign: string -> Option<string>)
    ensures Take(ItemService.MapAttach(rows, sign), n) == ItemService.MapAttach(Take(rows, n), sign)
  {
  }

  /**
   * A missing item fails with "Item not found"; otherwise the result is an
   * order-preserving prefix, of length min(4, n), of the candidates.
   */
  lemma RecommendationsSpec(items: seq<Item>, itemId: ItemId, now: int,
                            sign: string -> Option<string>, similar: Option<seq<Item>>)
    ensures var r := GetRecommendationsForItem(items, itemId, now, sign, similar);
      var base := ItemService.GetRecommendationBaseData(items, itemId, BASE_LIMIT, now, sign, similar);
      && (r.Failure? <==> forall i :: 0 <= i < |items| ==> items[i].id != itemId)
      && (r.Failure? ==> r.error == "Item not found")
      && (r.Success? ==>
            && |r.value| <= TOP
            && r.value == base.value.candidates[..|r.value|]
            && (|r.value| < TOP ==> r.value == base.value.candidates))
      && (r.Success? && similar.Some? ==> r.value == TopRecommendations(similar.value))
  {
    ItemService.RecommendationBaseDataSpec(items, itemId, BASE_LIMIT, now, sign, similar);
  }
}
