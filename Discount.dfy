/** The storefront lookups: `get_discount_info`, which reads one game's
    discount and price out of the storefront's JSON answer, and
    `get_store_url`. The request itself is not modelled: its outcome is the
    input. */
module Discount {
  import Text
  import opened Json

  /** What `requests.get(...).json()` gives: the parsed body, or a
      `RequestException` (a connection error, a timeout, or a body that is not
      JSON). */
  datatype Response = RequestFailed | Body(json: Value)

  /** The `(0, "N/A")` the lookup falls back to. */
  const NoDiscount: (Value, Value) := (Int(0), Str("N/A"))

  const StorePrefix: string := "https://store.steampowered.com/app/"

  /** `get_store_url(app_id)`. */
  function StoreUrl(appId: string): string {
    StorePrefix + appId
  }

  /** The app id is recovered from its store URL as its last path segment. */
  lemma StoreUrlRoundTrip(appId: string)
    requires Text.NoSlash(appId)
    ensures Text.LastSegment(StoreUrl(appId)) == appId
  {
    Text.LastSegmentAfterSlash(StorePrefix, appId);
  }

  /** Distinct games get distinct store URLs. */
  lemma StoreUrlInjective(a: string, b: string)
    requires StoreUrl(a) == StoreUrl(b)
    ensures a == b
  {
    assert a == StoreUrl(a)[|StorePrefix|..];
  }

  /** The answer holds an entry under the game's id: it is a dict and
      `str(app_id)` is one of its keys. */
  predicate HasEntry(appId: string, response: Response) {
    response.Body? && response.json.Obj? && appId in response.json.fields
  }

  function EntryFor(appId: string, response: Response): Value
    requires HasEntry(appId, response)
  {
    response.json.fields[appId]
  }

  /** `get_discount_info(app_id)` once the request has been made. Only a
      `RequestException` is caught; calling `.get` on a JSON value that is
      not a dict raises an AttributeError that escapes. */
  function GetDiscountInfo(appId: string, response: Response): (r: Outcome<(Value, Value)>)
    // no answer, an answer that is not a dict, or no entry for the id
    ensures !HasEntry(appId, response) ==> r == Returned(NoDiscount)
    // an entry that is not a dict
    ensures HasEntry(appId, response) && !EntryFor(appId, response).Obj? ==> r == Raised(AttributeError)
    // `success` absent or false
    ensures HasEntry(appId, response) && EntryFor(appId, response).Obj?
            && !Truthy(Get(EntryFor(appId, response).fields, "success", Bool(false)))
            ==> r == Returned(NoDiscount)
    // a successful entry: its `data.price_overview` fields, unchanged, with defaults
    ensures HasEntry(appId, response) && EntryFor(appId, response).Obj?
            && Truthy(Get(EntryFor(appId, response).fields, "success", Bool(false)))
            ==> var data := Get(EntryFor(appId, response).fields, "data", Obj(map[]));
                if !data.Obj? then r == Raised(AttributeError)
                else
                  var overview := Get(data.fields, "price_overview", Obj(map[]));
                  if !overview.Obj? then r == Raised(AttributeError)
                  else r == Returned((Get(overview.fields, "discount_percent", Int(0)),
                                      Get(overview.fields, "final_formatted", Str("N/A"))))
  {
    match response
    case RequestFailed => Returned(NoDiscount)
    case Body(data) =>
      if !data.Obj? || appId !in data.fields then Returned(NoDiscount)
      else
        var appData := data.fields[appId];
        if !appData.Obj? then Raised(AttributeError)
        else if !Truthy(Get(appData.fields, "success", Bool(false))) then Returned(NoDiscount)
        else
          var details := Get(appData.fields, "data", Obj(map[]));
          if !details.Obj? then Raised(AttributeError)
          else
            var priceInfo := Get(details.fields, "price_overview", Obj(map[]));
            if !priceInfo.Obj? then Raised(AttributeError)
            else Returned((Get(priceInfo.fields, "discount_percent", Int(0)),
                           Get(priceInfo.fields, "final_formatted", Str("N/A"))))
  }
}
