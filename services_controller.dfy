/**
 * The service catalogue handlers: the id lookup that runs before the per-service routes, and
 * the create, update and delete handlers over the service collection.
 */
module ServicesController {
  import opened Wrappers
  import opened JsText
  import opened ServicesModel

  datatype ServiceMessage =
    | InvalidId | ServiceNotFound | LookupError
    | EmptyService | BadPrice | InvalidData | Created | CreateError
    | BadUpdatePrice | InvalidUpdate | Updated | UpdateError
    | Deleted | DeleteError

  datatype ServiceReply = ServiceReply(status: nat, msg: ServiceMessage)

  /** The middleware either answers the request itself or attaches the service and calls `next()`. */
  datatype Lookup = Answered(reply: ServiceReply) | Attached(service: Service)

  /**
   * `findServiceByIdMiddleware`. `isValidObjectId` is Mongoose's id syntax check and
   * `lookupFails` says `findById` throws.
   */
  function FindServiceById(services: map<string, Service>, id: string, isValidObjectId: string -> bool,
                           lookupFails: bool): (r: Lookup)
    ensures r.Attached? <==> isValidObjectId(id) && !lookupFails && id in services
    ensures r.Attached? ==> r.service == services[id]
    ensures r.Answered? ==> r.reply.status in {400, 404, 500}
    ensures r == Answered(ServiceReply(400, InvalidId)) <==> !isValidObjectId(id)
    ensures r == Answered(ServiceReply(404, ServiceNotFound)) <==> isValidObjectId(id) && !lookupFails && id !in services
    ensures r == Answered(ServiceReply(500, LookupError)) <==> isValidObjectId(id) && lookupFails
  {
    if !isValidObjectId(id) then Answered(ServiceReply(400, InvalidId))
    else if lookupFails then Answered(ServiceReply(500, LookupError))
    else if id !in services then Answered(ServiceReply(404, ServiceNotFound))
    else Attached(services[id])
  }

  /** `Object.keys(body).length === 0` or some string value of the body is blank. */
  predicate EmptyBody(body: map<string, JsonValue>) {
    |body| == 0 || exists k :: k in body && body[k].JStr? && IsBlank(body[k].s)
  }

  /** `parseFloat(body.price)`: absent, `null` and booleans give `NaN`. */
  function RequestPrice(body: map<string, JsonValue>, parsers: Parsers): (r: Option<real>)
    ensures r.Some? ==> "price" in body && (body["price"].JStr? || body["price"].JNum?)
    ensures "price" in body && body["price"].JNum? ==> r == Some(body["price"].n)
  {
    if "price" !in body then None
    else
      match body["price"]
      case JStr(s) => parsers.parseFloat(s)
      case JNum(n) => Some(n)
      case _ => None
  }

  /** `isNaN(price) || price <= 0` is false. */
  predicate PositivePrice(price: Option<real>) {
    price.Some? && price.value > 0.0
  }

  /**
   * `createService`. `freshId` is the `_id` the new document gets; `storeFails` says the
   * insert throws for a reason other than validation.
   */
  method CreateService(db: ServiceCollection, body: map<string, JsonValue>, parsers: Parsers,
                       freshId: string, storeFails: bool) returns (reply: ServiceReply)
    requires db.Valid()
    modifies db
    ensures db.Valid()
    ensures EmptyBody(body) ==> reply == ServiceReply(400, EmptyService) && db.services == old(db.services)
    ensures !EmptyBody(body) && !PositivePrice(RequestPrice(body, parsers)) ==>
      reply == ServiceReply(400, BadPrice) && db.services == old(db.services)
    ensures !EmptyBody(body) && PositivePrice(RequestPrice(body, parsers)) ==>
      if Validate(body, parsers).None? then
        reply == ServiceReply(400, InvalidData) && db.services == old(db.services)
      else if storeFails || freshId in old(db.services) then
        reply == ServiceReply(500, CreateError) && db.services == old(db.services)
      else
        reply == ServiceReply(201, Created) && db.services == old(db.services)[freshId := Validate(body, parsers).value]
  {
    if EmptyBody(body) {
      return ServiceReply(400, EmptyService);
    }
    var price := RequestPrice(body, parsers);
    if price.None? || price.value <= 0.0 {
      return ServiceReply(400, BadPrice);
    }
    var document := Validate(body, parsers);
    if document.None? {
      return ServiceReply(400, InvalidData);
    }
    if storeFails || freshId in db.services {
      return ServiceReply(500, CreateError);
    }
    db.services := db.services[freshId := document.value];
    reply := ServiceReply(201, Created);
  }

  /** A body whose price is a number the schema accepts stores that very price. */
  lemma CreatedPriceIsRequestPrice(body: map<string, JsonValue>, parsers: Parsers)
    requires "price" in body && body["price"].JNum? && Validate(body, parsers).Some?
    ensures Validate(body, parsers).value.price == RequestPrice(body, parsers).value
    ensures Validate(body, parsers).value.price >= MinPrice
  {
  }

  /** A request body with a name and a price of half a cent. */
  const TinyPriceBody: map<string, JsonValue> := map["name" := JStr("Corte"), "price" := JNum(0.005)]

  /**
   * A price in (0, 0.01) gets past the handler's `price <= 0` test but not the schema's minimum:
   * such a request is answered by the `ValidationError` branch, not by the price check.
   */
  lemma TinyPriceReachesValidation(parsers: Parsers)
    ensures !EmptyBody(TinyPriceBody)
    ensures RequestPrice(TinyPriceBody, parsers) == Some(0.005) && PositivePrice(RequestPrice(TinyPriceBody, parsers))
    ensures Validate(TinyPriceBody, parsers).None?
  {
    var body := TinyPriceBody;
    assert body.Keys == {"name", "price"};
    assert body["name"] == JStr("Corte") && body["price"] == JNum(0.005);
    TrimmedIsFixed("Corte");
    assert IsTrimmedNonEmpty("Corte");
    forall k | k in body ensures !(body[k].JStr? && IsBlank(body[k].s)) {
    }
    SmallPriceInvalid(Trim("Corte"), 0.005);
  }

  /**
   * The service `updateService` would save: `service.price = numericPrice` when a price was
   * sent, and `service.name = name || service.name`.
   */
  function Edited(current: Service, body: map<string, JsonValue>, parsers: Parsers): Service {
    var price := if "price" in body && RequestPrice(body, parsers).Some? then RequestPrice(body, parsers).value else current.price;
    var name := if "name" in body && Truthy(body["name"]) then CastName(body["name"], parsers).GetOr(current.name) else current.name;
    Service(name, price)
  }

  /**
   * Partial update: a field the body leaves out (or, for the name, sends falsy) keeps its
   * stored value, and sending the same body twice changes nothing the second time.
   */
  lemma EditedIsPartial(current: Service, body: map<string, JsonValue>, parsers: Parsers)
    ensures "price" !in body ==> Edited(current, body, parsers).price == current.price
    ensures ("name" !in body || !Truthy(body["name"])) ==> Edited(current, body, parsers).name == current.name
    ensures Edited(current, map[], parsers) == current
    ensures Edited(Edited(current, body, parsers), body, parsers) == Edited(current, body, parsers)
  {
  }

  /** When the body gives both a truthy name and a price, the result no longer depends on the stored service. */
  lemma FullEditReplaces(a: Service, b: Service, body: map<string, JsonValue>, parsers: Parsers)
    requires "name" in body && Truthy(body["name"]) && PositivePrice(RequestPrice(body, parsers))
    ensures Edited(a, body, parsers) == Edited(b, body, parsers)
  {
    assert body["name"] != JNull;
  }

  /**
   * `updateService` for the service the middleware attached under `id`. `storeFails` says the
   * save throws for a reason other than validation.
   */
  method UpdateService(db: ServiceCollection, id: string, body: map<string, JsonValue>, parsers: Parsers,
                       storeFails: bool) returns (reply: ServiceReply)
    requires db.Valid() && id in db.services
    modifies db
    ensures db.Valid()
    ensures "price" in body && !PositivePrice(RequestPrice(body, parsers)) ==>
      reply == ServiceReply(400, BadUpdatePrice) && db.services == old(db.services)
    ensures !("price" in body && !PositivePrice(RequestPrice(body, parsers))) ==>
      var edited := Edited(old(db.services)[id], body, parsers);
      if !SchemaValid(edited) then
        reply == ServiceReply(400, InvalidUpdate) && db.services == old(db.services)
      else if storeFails then
        reply == ServiceReply(500, UpdateError) && db.services == old(db.services)
      else
        reply == ServiceReply(200, Updated) && db.services == old(db.services)[id := edited]
  {
    var service := db.services[id];
    if "price" in body {
      var numericPrice := RequestPrice(body, parsers);
      if numericPrice.None? || numericPrice.value <= 0.0 {
        return ServiceReply(400, BadUpdatePrice);
      }
      service := service.(price := numericPrice.value);
    }
    if "name" in body && Truthy(body["name"]) {
      service := service.(name := CastName(body["name"], parsers).GetOr(service.name));
    }
    if !SchemaValid(service) {
      return ServiceReply(400, InvalidUpdate);
    }
    if storeFails {
      return ServiceReply(500, UpdateError);
    }
    db.services := db.services[id := service];
    reply := ServiceReply(200, Updated);
  }

  /** `deleteService` for the service the middleware attached under `id`. */
  method DeleteService(db: ServiceCollection, id: string, storeFails: bool) returns (reply: ServiceReply)
    requires db.Valid() && id in db.services
    modifies db
    ensures db.Valid()
    ensures storeFails ==> reply == ServiceReply(500, DeleteError) && db.services == old(db.services)
    ensures !storeFails ==> reply == ServiceReply(200, Deleted) && db.services == old(db.services) - {id}
  {
    if storeFails {
      return ServiceReply(500, DeleteError);
    }
    db.services := db.services - {id};
    reply := ServiceReply(200, Deleted);
  }
}
