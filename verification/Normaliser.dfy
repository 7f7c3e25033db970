/** The `json.data.map(item => ({ … }))` step of the bar-chart response
    handler: every upstream record becomes a ten-field record through
    fallback chains, some written with `||` (first truthy value) and some
    with `??` (first value that is neither `null` nor `undefined`).

    The mapping throws a TypeError for an item that is `null` or
    `undefined` (the plain read `item.symbol`), and the surrounding step
    throws when the payload is nullish or its `data` is not an array. All of
    these land in the handler's `catch`, so they are modelled as `None`. */
module Normaliser {
  import opened Wrappers
  import opened JsValues

  /** One output record. Fields hold whatever JavaScript value the chain
      produced: a `name` taken from a numeric `symbolName` stays a number. */
  datatype CanonicalRecord = CanonicalRecord(
    symbol: JsValue,
    name: JsValue,
    percentChange: JsValue,
    industry: JsValue,
    percentChange5d: JsValue,
    percentChange1m: JsValue,
    percentChange3m: JsValue,
    percentChange6m: JsValue,
    marketCap: JsValue,
    nextEarningsDate: JsValue)

  const NotAvailable: JsValue := Str("N/A")

  /** The candidates of the `name` chain, in the order the source tries them. */
  function NameCandidates(item: JsValue): seq<JsValue>
    requires !Nullish(item)
  {
    var raw := Prop(item, "raw");
    [Prop(item, "symbolName"), Prop(item, "name"), OptProp(raw, "symbolName"), OptProp(raw, "name")]
  }

  /** The candidates of the `industry` chain. */
  function IndustryCandidates(item: JsValue): seq<JsValue>
    requires !Nullish(item)
  {
    [Prop(item, "industry"), OptProp(Prop(item, "raw"), "industry")]
  }

  /** The two candidates of a `??` chain for field `key`: the top level, then
      the nested `raw` namespace. */
  function PresentCandidates(item: JsValue, key: string): seq<JsValue>
    requires !Nullish(item)
  {
    [Prop(item, key), OptProp(Prop(item, "raw"), key)]
  }

  /** `item.key ?? item.raw?.key ?? last` */
  function Fallback(item: JsValue, key: string, last: JsValue): (r: JsValue)
    requires !Nullish(item)
    ensures r == FirstPresent(PresentCandidates(item, key), last)
  {
    CoalesceChainMeaning(Prop(item, key), OptProp(Prop(item, "raw"), key), last);
    Coalesce(Coalesce(Prop(item, key), OptProp(Prop(item, "raw"), key)), last)
  }

  /** The record built from one item, with each field described by the
      reference meaning of its chain rather than by the operators. */
  function NormaliseItem(item: JsValue): (r: Option<CanonicalRecord>)
    ensures r.None? <==> Nullish(item)
    ensures r.Some? ==> r.value.symbol == Prop(item, "symbol")
    ensures r.Some? ==> r.value.percentChange == Prop(item, "percentChange")
    ensures r.Some? ==> r.value.name == FirstTruthy(NameCandidates(item), NotAvailable)
    ensures r.Some? ==> r.value.industry == FirstTruthy(IndustryCandidates(item), NotAvailable)
    ensures r.Some? ==> r.value.percentChange5d == FirstPresent(PresentCandidates(item, "percentChange5d"), Null)
    ensures r.Some? ==> r.value.percentChange1m == FirstPresent(PresentCandidates(item, "percentChange1m"), Null)
    ensures r.Some? ==> r.value.percentChange3m == FirstPresent(PresentCandidates(item, "percentChange3m"), Null)
    ensures r.Some? ==> r.value.percentChange6m == FirstPresent(PresentCandidates(item, "percentChange6m"), Null)
    ensures r.Some? ==> r.value.marketCap == FirstPresent(PresentCandidates(item, "marketCap"), Null)
    ensures r.Some? ==> r.value.nextEarningsDate == FirstPresent(PresentCandidates(item, "nextEarningsDate"), NotAvailable)
  {
    if Nullish(item) then None
    else
      var raw := Prop(item, "raw");
      OrChainMeaning(Prop(item, "symbolName"), Prop(item, "name"),
                     OptProp(raw, "symbolName"), OptProp(raw, "name"), NotAvailable);
      OrChainMeaning(Prop(item, "industry"), OptProp(raw, "industry"), Undefined, Undefined, NotAvailable);
      Some(CanonicalRecord(
        symbol := Prop(item, "symbol"),
        name := Or(Or(Or(Prop(item, "symbolName"), Prop(item, "name")),
                      Or(OptProp(raw, "symbolName"), OptProp(raw, "name"))),
                   NotAvailable),
        percentChange := Prop(item, "percentChange"),
        industry := Or(Or(Prop(item, "industry"), OptProp(raw, "industry")), NotAvailable),
        percentChange5d := Fallback(item, "percentChange5d", Null),
        percentChange1m := Fallback(item, "percentChange1m", Null),
        percentChange3m := Fallback(item, "percentChange3m", Null),
        percentChange6m := Fallback(item, "percentChange6m", Null),
        marketCap := Fallback(item, "marketCap", Null),
        nextEarningsDate := Fallback(item, "nextEarningsDate", NotAvailable)))
  }

  /** No item is `null` or `undefined`, so `map` runs to the end. */
  predicate AllItemsPresent(items: seq<JsValue>) {
    forall i :: 0 <= i < |items| ==> !Nullish(items[i])
  }

  /** `items.map(normalise)`: fails as soon as one item throws. */
  function NormaliseItems(items: seq<JsValue>): (r: Option<seq<CanonicalRecord>>)
    ensures r.Some? <==> AllItemsPresent(items)
    ensures r.Some? ==> |r.value| == |items|
    ensures r.Some? ==> forall i :: 0 <= i < |items| ==> NormaliseItem(items[i]) == Some(r.value[i])
  {
    if |items| == 0 then Some([])
    else
      match NormaliseItem(items[0])
      case None => None
      case Some(head) =>
        match NormaliseItems(items[1..])
        case None => None
        case Some(tail) => Some([head] + tail)
  }

  /** The handler's work on a parsed payload: reading `json.data` throws on a
      nullish payload, and `.map` throws unless `data` is an array. */
  function NormalisePayload(json: JsValue): (r: Option<seq<CanonicalRecord>>)
    ensures r.Some? <==> !Nullish(json) && Prop(json, "data").Arr? && AllItemsPresent(Prop(json, "data").elems)
    ensures r.Some? ==> |r.value| == |Prop(json, "data").elems|
    ensures r.Some? ==> forall i :: 0 <= i < |r.value| ==> NormaliseItem(Prop(json, "data").elems[i]) == Some(r.value[i])
  {
    if Nullish(json) then None
    else
      var data := Prop(json, "data");
      if data.Arr? then NormaliseItems(data.elems) else None
  }

  /** `name` and `industry` are always truthy and the `??` fields are never
      `undefined`: the chains always end in a usable default. */
  lemma NormalisedFieldsPopulated(item: JsValue)
    requires !Nullish(item)
    ensures Truthy(NormaliseItem(item).value.name)
    ensures Truthy(NormaliseItem(item).value.industry)
    ensures !NormaliseItem(item).value.percentChange5d.Undefined?
    ensures !NormaliseItem(item).value.percentChange1m.Undefined?
    ensures !NormaliseItem(item).value.percentChange3m.Undefined?
    ensures !NormaliseItem(item).value.percentChange6m.Undefined?
    ensures !NormaliseItem(item).value.marketCap.Undefined?
    ensures !Nullish(NormaliseItem(item).value.nextEarningsDate)
  {
    ChainDefaults(NameCandidates(item), NotAvailable);
    ChainDefaults(IndustryCandidates(item), NotAvailable);
    ChainDefaults(PresentCandidates(item, "nextEarningsDate"), NotAvailable);
    PresentOrNull(PresentCandidates(item, "percentChange5d"));
    PresentOrNull(PresentCandidates(item, "percentChange1m"));
    PresentOrNull(PresentCandidates(item, "percentChange3m"));
    PresentOrNull(PresentCandidates(item, "percentChange6m"));
    PresentOrNull(PresentCandidates(item, "marketCap"));
  }

  lemma {:induction false} PresentOrNull(xs: seq<JsValue>)
    ensures !FirstPresent(xs, Null).Undefined?
  {
    if |xs| > 0 {
      PresentOrNull(xs[1..]);
    }
  }

  /** A record that has no name at the top level but a truthy one in `raw`
      takes the nested name; an empty string anywhere falls through. */
  lemma NameFromRaw(item: JsValue)
    requires !Nullish(item)
    requires !Truthy(Prop(item, "symbolName")) && !Truthy(Prop(item, "name"))
    requires Truthy(OptProp(Prop(item, "raw"), "symbolName"))
    ensures NormaliseItem(item).value.name == OptProp(Prop(item, "raw"), "symbolName")
  {
    FirstTruthyPicksFirst(NameCandidates(item), NotAvailable, 2);
  }

  /** The contrast between the two operators: a top-level zero (falsy, but
      present) is kept by a `??` field, while a top-level empty string in a
      `||` field is replaced by the nested value. */
  lemma ZeroKeptEmptyReplaced(item: JsValue)
    requires !Nullish(item)
    requires Prop(item, "percentChange5d") == Num(0.0)
    requires Prop(item, "industry") == Str("")
    ensures NormaliseItem(item).value.percentChange5d == Num(0.0)
    ensures NormaliseItem(item).value.industry == FirstTruthy([OptProp(Prop(item, "raw"), "industry")], NotAvailable)
  {
  }

  /** The keys the normaliser reads at the top level of an item. */
  const ReadKeys: seq<string> := [
    "symbol", "symbolName", "name", "percentChange", "industry", "percentChange5d",
    "percentChange1m", "percentChange3m", "percentChange6m", "marketCap", "nextEarningsDate"]

  /** When an item carries none of the keys (or only `null`s) and has no
      `raw` namespace, every field falls back to its default; `symbol` and
      `percentChange`, which have none, stay the item's own nullish value. */
  lemma {:induction false} DefaultsWhenMissing(item: JsValue)
    requires !Nullish(item)
    requires forall k :: k in ReadKeys ==> Nullish(Prop(item, k))
    requires Nullish(Prop(item, "raw"))
    ensures NormaliseItem(item) == Some(CanonicalRecord(
      Prop(item, "symbol"), NotAvailable, Prop(item, "percentChange"), NotAvailable,
      Null, Null, Null, Null, Null, NotAvailable))
    ensures Nullish(NormaliseItem(item).value.symbol) && Nullish(NormaliseItem(item).value.percentChange)
  {
  }
}
