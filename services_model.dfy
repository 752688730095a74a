/**
 * The `Services` schema: a required, trimmed `name` and a required `price` of at least 0.01,
 * with the casts Mongoose applies to request values before it validates a document.
 */
module ServicesModel {
  import opened Wrappers
  import opened JsText

  /** A JSON scalar in a request body. */
  datatype JsonValue = JStr(s: string) | JNum(n: real) | JBool(b: bool) | JNull

  /** `!!value` for a JSON scalar. */
  predicate Truthy(v: JsonValue) {
    match v
    case JStr(s) => s != ""
    case JNum(n) => n != 0.0
    case JBool(b) => b
    case JNull => false
  }

  /**
   * The string-to-number conversions involved: `parseFloat` (reads a leading number), the
   * `Number` cast Mongoose applies to a `Number` path, and `String(n)` for a number.
   * `None` stands for `NaN`.
   */
  datatype Parsers = Parsers(parseFloat: string -> Option<real>, toNumber: string -> Option<real>, show: real -> string)

  /** The schema's `min` for `price`. */
  const MinPrice: real := 0.01

  datatype Service = Service(name: string, price: real)

  /** The schema's constraints on a saved service. */
  predicate SchemaValid(s: Service) {
    IsTrimmedNonEmpty(s.name) && s.price >= MinPrice
  }

  /** The `String` cast followed by the `trim` setter; `null` gives no value. */
  function CastName(v: JsonValue, parsers: Parsers): (r: Option<string>)
    ensures r.None? <==> v.JNull?
  {
    match v
    case JStr(s) => Some(Trim(s))
    case JNum(n) => Some(Trim(parsers.show(n)))
    case JBool(b) => Some(if b then "true" else "false")
    case JNull => None
  }

  /** The `Number` cast; `None` is a cast error or `null`. */
  function CastPrice(v: JsonValue, parsers: Parsers): Option<real> {
    match v
    case JStr(s) => parsers.toNumber(s)
    case JNum(n) => Some(n)
    case JBool(b) => Some(if b then 1.0 else 0.0)
    case JNull => None
  }

  /**
   * `new servicesModels(body)` and the validation `save()` runs first: the document that would
   * be stored, or None when a cast or a validator fails (a `ValidationError`). Keys the schema
   * does not declare are dropped.
   */
  function Validate(body: map<string, JsonValue>, parsers: Parsers): (r: Option<Service>)
    ensures r.Some? ==> SchemaValid(r.value)
    ensures r.Some? ==> "name" in body && "price" in body
    ensures r.Some? ==> Some(r.value.name) == CastName(body["name"], parsers)
    ensures r.Some? ==> Some(r.value.price) == CastPrice(body["price"], parsers)
  {
    if "name" !in body || "price" !in body then None
    else
      match (CastName(body["name"], parsers), CastPrice(body["price"], parsers))
      case (Some(name), Some(price)) =>
        if SchemaValid(Service(name, price)) then Some(Service(name, price)) else None
      case _ => None
  }

  /** A body whose name and price cast to a valid service is accepted as that service. */
  lemma ValidateComplete(body: map<string, JsonValue>, parsers: Parsers)
    requires "name" in body && "price" in body
    requires CastName(body["name"], parsers).Some? && CastPrice(body["price"], parsers).Some?
    requires SchemaValid(Service(CastName(body["name"], parsers).value, CastPrice(body["price"], parsers).value))
    ensures Validate(body, parsers) == Some(Service(CastName(body["name"], parsers).value, CastPrice(body["price"], parsers).value))
  {
  }

  /** A price below the schema minimum is refused whatever the name. */
  lemma SmallPriceInvalid(name: string, price: real)
    requires price < MinPrice
    ensures !SchemaValid(Service(name, price))
  {
  }

  /** The store of service documents, keyed by `_id`. */
  class ServiceCollection {
    var services: map<string, Service>

    ghost predicate Valid()
      reads this
    {
      forall id :: id in services ==> SchemaValid(services[id])
    }

    constructor ()
      ensures Valid() && services == map[]
    {
      services := map[];
    }
  }
}
