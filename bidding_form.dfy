/**
 * The bid box on the item page: the typed text is read with `parseInt`,
 * compared with the current price to show a warning, to enable the
 * button, and to decide whether the bid request is sent.
 */
module BiddingForm {
  import opened Wrappers
  import opened Text

  /**
   * The value held in `bidAmount`: the initial empty string (which compares
   * as 0), NaN, or a whole number of currency units.
   */
  datatype BidValue = Blank | NaN | Num(n: int)

  /** The longest prefix of decimal digits. */
  function LeadingDigits(s: string): (d: string)
    ensures |d| <= |s| && d == s[..|d|]
    ensures forall i :: 0 <= i < |d| ==> IsDigit(d[i])
    ensures |d| < |s| ==> !IsDigit(s[|d|])
  {
    if s == [] || !IsDigit(s[0]) then []
    else [s[0]] + LeadingDigits(s[1..])
  }

  /** `parseInt(text)`: an optional sign, then digits up to the first non-digit; NaN without digits. */
  function ParseInt(text: string): BidValue {
    var negative := |text| > 0 && text[0] == '-';
    var body := if |text| > 0 && (text[0] == '-' || text[0] == '+') then text[1..] else text;
    var digits := LeadingDigits(body);
    if digits == [] then NaN
    else Num(if negative then -(DigitsValue(digits) as int) else DigitsValue(digits))
  }

  /** What `String(n)` writes, `parseInt` reads back. */
  lemma ParseIntRoundTrip(n: int)
    ensures ParseInt(IntToString(n)) == Num(n)
  {
    var s := IntToString(n);
    IntToStringRoundTrip(n);
    var body := if n < 0 then s[1..] else s;
    assert body == NatToString(if n < 0 then -n else n);
    assert LeadingDigits(body) == body by {
      AllDigitsLeading(body);
    }
  }

  lemma {:induction false} AllDigitsLeading(s: string)
    requires forall i :: 0 <= i < |s| ==> IsDigit(s[i])
    ensures LeadingDigits(s) == s
  {
    if s != [] {
      AllDigitsLeading(s[1..]);
    }
  }

  /** A decimal entry is cut at the point: "100.75" is read as 100. */
  lemma ParseIntTruncates(n: nat, fraction: string)
    requires |fraction| > 0 && fraction[0] == '.'
    ensures ParseInt(NatToString(n) + fraction) == Num(n)
  {
    var s := NatToString(n);
    var t := s + fraction;
    assert t[0] != '-' && t[0] != '+';
    LeadingDigitsStop(s, fraction);
    NatToStringRoundTrip(n);
  }

  lemma {:induction false} LeadingDigitsStop(s: string, rest: string)
    requires forall i :: 0 <= i < |s| ==> IsDigit(s[i])
    requires |rest| > 0 && !IsDigit(rest[0])
    ensures LeadingDigits(s + rest) == s
  {
    if s != [] {
      assert (s + rest)[1..] == s[1..] + rest;
      LeadingDigitsStop(s[1..], rest);
    }
  }

  /** `bidAmount <= current_price`, with the price in cents. */
  predicate AtMost(b: BidValue, priceCents: int) {
    match b
    case Blank => 0 <= priceCents
    case NaN => false
    case Num(n) => n * 100 <= priceCents
  }

  /** `bidAmount > current_price`, with the price in cents. */
  predicate Above(b: BidValue, priceCents: int) {
    match b
    case Blank => 0 > priceCents
    case NaN => false
    case Num(n) => n * 100 > priceCents
  }

  /**
   * For a number exactly one comparison holds; for NaN neither does, so NaN
   * shows no warning, leaves the button enabled, and still sends nothing.
   */
  lemma ComparisonsSplit(b: BidValue, priceCents: int)
    ensures b != NaN ==> (Above(b, priceCents) <==> !AtMost(b, priceCents))
    ensures b == NaN ==> !Above(b, priceCents) && !AtMost(b, priceCents)
  {
  }

  const WARNING: string := "Bid cannot be lower or same ... must be higher"

  /** The bid a submit sends: the `bid_Amount` body of `PATCH /api/items/bidup/:id`. */
  datatype BidRequest = BidRequest(itemId: int, bidAmount: BidValue)

  class Form {
    /** `current_price` of the item, in cents, and the item id. */
    const currentPrice: int
    const itemId: int
    var bidAmount: BidValue
    var warning: string

    constructor (currentPrice: int, itemId: int)
      ensures this.currentPrice == currentPrice && this.itemId == itemId
      ensures bidAmount == Blank && warning == ""
    {
      this.currentPrice := currentPrice;
      this.itemId := itemId;
      bidAmount := Blank;
      warning := "";
    }

    /** `handleBidChange`: store the parsed value, warn when it is not above the price. */
    method HandleBidChange(text: string)
      modifies this
      ensures bidAmount == ParseInt(text)
      ensures warning != "" <==> AtMost(ParseInt(text), currentPrice)
      ensures warning != "" ==> warning == WARNING
      ensures Disabled() <==> warning != ""
    {
      var value := ParseInt(text);
      bidAmount := value;
      if AtMost(value, currentPrice) {
        warning := WARNING;
      } else {
        warning := "";
      }
    }

    /** `handleBidSubmit`: the request it sends, if any. */
    method HandleBidSubmit() returns (request: Option<BidRequest>)
      ensures request.Some? <==> Above(bidAmount, currentPrice)
      ensures request.Some? ==> request.value == BidRequest(itemId, bidAmount)
    {
      if Above(bidAmount, currentPrice) {
        request := Some(BidRequest(itemId, bidAmount));
      } else {
        request := None;
      }
    }

    /** `disabled={bidAmount <= current_price}` */
    predicate Disabled()
      reads this
    {
      AtMost(bidAmount, currentPrice)
    }
  }

  /**
   * After typing `text`, a request goes out exactly when the entry is a
   * number above the price, i.e. when no warning is shown and the entry
   * parsed; an unparsable entry neither warns nor sends.
   */
  lemma SendIffNumberAbovePrice(text: string, priceCents: int)
    ensures Above(ParseInt(text), priceCents) <==>
      ParseInt(text).Num? && ParseInt(text).n * 100 > priceCents
    ensures ParseInt(text) == NaN ==> !Above(ParseInt(text), priceCents) && !AtMost(ParseInt(text), priceCents)
    ensures ParseInt(text) != NaN ==> (Above(ParseInt(text), priceCents) <==> !AtMost(ParseInt(text), priceCents))
  {
    ComparisonsSplit(ParseInt(text), priceCents);
  }

  /**
   * Before any typing the empty entry compares as 0: for any price of at
   * least 0 the button starts disabled although no warning is shown.
   */
  lemma InitialFormDisabledWithoutWarning(priceCents: int)
    requires priceCents >= 0
    ensures AtMost(Blank, priceCents) && !Above(Blank, priceCents)
  {
  }

  /** Text with no leading digit, such as "" or "abc", parses to NaN. */
  lemma NoDigitsIsNaN(text: string)
    requires text == [] || (!IsDigit(text[0]) && text[0] != '-' && text[0] != '+')
    ensures ParseInt(text) == NaN
  {
  }

  /** A whole bid equal to the price warns, disables the button and is not sent. */
  lemma EqualBidRejected(units: nat)
    ensures AtMost(ParseInt(IntToString(units)), units * 100)
    ensures !Above(ParseInt(IntToString(units)), units * 100)
  {
    ParseIntRoundTrip(units);
  }
}
