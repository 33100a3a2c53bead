/**
 * The request handlers of app/main.py, which keep their own in-memory store
 * in the module-level `ORDERS` list and `IDEMPOTENCY_MAP` dictionary. Here
 * those two globals are the fields of an `OrdersApp` object; the handlers'
 * logic is also given as functions over a store value (`HandleCreate`,
 * `ListResponseOf`) so that properties relating several requests can be
 * stated as lemmas.
 */
module Api {
  import opened Wrappers
  import opened Models
  import opened OrderStore

  const STATUS_BAD_REQUEST: int := 400
  const MISSING_KEY_DETAIL: string := "Missing Idempotency-Key header"
  const RESULT_CREATED: string := "created"
  const RESULT_DUPLICATE: string := "duplicate_request_returned_existing"

  /** An HTTP error response: status code and `detail`. */
  datatype HttpError = HttpError(statusCode: int, detail: string)

  /** The create envelope `{"result": ..., "order": ...}`. */
  datatype CreateResponse = CreateResponse(result: string, order: Order)

  /** The list envelope `{"count": ..., "orders": [...]}`. */
  datatype ListResponse = ListResponse(count: int, orders: seq<Order>)

  /** What handling one create request produces: the next store and the response. */
  datatype Handled = Handled(next: Store, response: Result<CreateResponse, HttpError>)

  /**
   * Python truthiness of the optional header (`not idempotency_key`): `None`
   * and the empty string are false, every other string is true.
   */
  predicate HasKey(idempotencyKey: Option<string>): (b: bool)
    ensures !b <==> idempotencyKey == None || idempotencyKey == Some("")
  {
    idempotencyKey.Some? && idempotencyKey.value != ""
  }

  /**
   * `POST /orders`: reject a missing or empty key with 400; return the mapped
   * order as a duplicate; otherwise create, record and return it as created.
   */
  function HandleCreate(s: Store, payload: OrderCreate, idempotencyKey: Option<string>,
                        orderId: string, createdAt: string): (h: Handled)
    ensures h.response.Failure? <==> !HasKey(idempotencyKey)
    ensures h.response.Failure? ==>
              h.next == s && h.response.error == HttpError(STATUS_BAD_REQUEST, MISSING_KEY_DETAIL)
    ensures h.response.Success? ==>
              var key := idempotencyKey.value;
              var resp := h.response.value;
              && key in h.next.idem && h.next.idem[key] == resp.order
              && (resp.result == RESULT_DUPLICATE <==> key in s.idem)
              && (resp.result == RESULT_CREATED <==> key !in s.idem)
              && (resp.result == RESULT_DUPLICATE ==> h.next == s && resp.order == s.idem[key])
              && (resp.result == RESULT_CREATED ==>
                    && resp.order == MakeOrder(payload, key, orderId, createdAt)
                    && h.next.orders == s.orders + [resp.order]
                    && h.next.idem == s.idem[key := resp.order])
  {
    if !HasKey(idempotencyKey) then
      Handled(s, Failure(HttpError(STATUS_BAD_REQUEST, MISSING_KEY_DETAIL)))
    else
      var step := CreateIfAbsent(s, payload, idempotencyKey.value, orderId, createdAt);
      var result := if step.isNew then RESULT_CREATED else RESULT_DUPLICATE;
      Handled(step.next, Success(CreateResponse(result, step.order)))
  }

  /** A created order has status "created", the payload's fields and the header's key. */
  lemma CreatedOrderFields(s: Store, payload: OrderCreate, key: string, orderId: string, createdAt: string)
    requires key != "" && key !in s.idem
    ensures var h := HandleCreate(s, payload, Some(key), orderId, createdAt);
            && h.response.Success? && h.response.value.result == RESULT_CREATED
            && h.response.value.order.status == STATUS_CREATED
            && h.response.value.order.userId == payload.userId
            && h.response.value.order.amount == payload.amount
            && h.response.value.order.currency == payload.currency
            && h.response.value.order.idempotencyKey == key
  {
  }

  /**
   * Two successive requests with the same key: the second is answered with
   * the duplicate envelope around the very order the first returned, and
   * leaves the store as the first left it.
   */
  lemma RetryReturnsSameOrder(s: Store, p1: OrderCreate, p2: OrderCreate, key: string,
                              id1: string, id2: string, t1: string, t2: string)
    requires key != ""
    ensures var h1 := HandleCreate(s, p1, Some(key), id1, t1);
            var h2 := HandleCreate(h1.next, p2, Some(key), id2, t2);
            && h1.response.Success? && h2.response.Success?
            && h2.response.value.result == RESULT_DUPLICATE
            && h2.response.value.order == h1.response.value.order
            && h2.response.value.order.orderId == h1.response.value.order.orderId
            && h2.next == h1.next
  {
  }

  /** Handling any request keeps the list and the map consistent, given a fresh id whenever a new order is built. */
  lemma HandlePreservesValid(s: Store, payload: OrderCreate, idempotencyKey: Option<string>,
                             orderId: string, createdAt: string)
    requires Valid(s)
    requires HasKey(idempotencyKey) && idempotencyKey.value !in s.idem ==> orderId !in IdsOf(s.orders)
    ensures var h := HandleCreate(s, payload, idempotencyKey, orderId, createdAt);
            && Valid(h.next)
            && |h.next.orders| == |h.next.idem|
  {
    var h := HandleCreate(s, payload, idempotencyKey, orderId, createdAt);
    if HasKey(idempotencyKey) {
      CreatePreservesValid(s, payload, idempotencyKey.value, orderId, createdAt);
    }
    ValidSizes(h.next);
  }

  /**
   * `GET /orders` as written: `count` is `min(limit, len(ORDERS))` and the
   * orders are `list(reversed(ORDERS))[:limit]`. For a non-negative limit the
   * count is the number of orders returned.
   */
  function ListResponseOf(orders: seq<Order>, limit: int := 20): (r: ListResponse)
    ensures r.count == if limit < |orders| then limit else |orders|
    ensures |r.orders| == SliceEnd(|orders|, limit)
    ensures limit >= 0 ==> r.count == |r.orders|
    ensures forall i :: 0 <= i < |r.orders| ==> r.orders[i] == orders[|orders| - 1 - i]
    ensures r.orders == Reversed(orders[|orders| - |r.orders|..])
  {
    NewestFirstIsRecentSuffix(orders, limit);
    ListResponse(if limit < |orders| then limit else |orders|, NewestFirst(orders, limit))
  }

  /**
   * For a negative limit the response as written reports a negative count,
   * which is not the number of orders it returns.
   */
  lemma NegativeLimitCountMismatch()
    ensures var orders := [Order("o1", "u1", 10.5, "EUR", STATUS_CREATED, "t1", "k1")];
            var r := ListResponseOf(orders, -1);
            && r.count == -1
            && r.orders == []
            && r.count != |r.orders|
  {
  }

  /**
   * `GET /orders` with the limit clamped at 0, as listing is meant to bound
   * it: the count is always the number of orders returned, never negative,
   * and the response is the as-written one whenever the limit is not
   * negative.
   */
  function ClampedListResponse(orders: seq<Order>, limit: int := 20): (r: ListResponse)
    ensures r.count == |r.orders| >= 0 && |r.orders| <= |orders|
    ensures forall i :: 0 <= i < |r.orders| ==> r.orders[i] == orders[|orders| - 1 - i]
    ensures limit >= 0 ==> r == ListResponseOf(orders, limit)
    ensures limit < 0 ==> r.orders == []
  {
    ListResponseOf(orders, if limit < 0 then 0 else limit)
  }

  /** The app's module-level state: the `ORDERS` list and the `IDEMPOTENCY_MAP` dictionary. */
  class OrdersApp {
    var orders: seq<Order>
    var idempotencyMap: map<string, Order>

    function State(): Store
      reads this
    {
      Store(orders, idempotencyMap)
    }

    /** `ORDERS` and `IDEMPOTENCY_MAP` agree: one order per key, the map's values are the list's elements. */
    ghost predicate Valid()
      reads this
    {
      OrderStore.Valid(State())
    }

    /** Both globals start empty. */
    constructor ()
      ensures Valid()
      ensures orders == [] && idempotencyMap == map[]
    {
      orders := [];
      idempotencyMap := map[];
    }

    /**
     * The `POST /orders` handler. `orderId` and `createdAt` stand for the
     * values of `uuid4()` and the clock; the id is fresh whenever a new order
     * is built.
     */
    method CreateOrder(payload: OrderCreate, idempotencyKey: Option<string>, orderId: string, createdAt: string)
      returns (r: Result<CreateResponse, HttpError>)
      requires Valid()
      requires HasKey(idempotencyKey) && idempotencyKey.value !in idempotencyMap ==> orderId !in IdsOf(orders)
      modifies this
      ensures Valid()
      ensures var h := HandleCreate(old(State()), payload, idempotencyKey, orderId, createdAt);
              State() == h.next && r == h.response
      ensures !HasKey(idempotencyKey) ==>
                r == Failure(HttpError(STATUS_BAD_REQUEST, MISSING_KEY_DETAIL))
                && orders == old(orders) && idempotencyMap == old(idempotencyMap)
      ensures HasKey(idempotencyKey) && old(idempotencyKey.value in idempotencyMap) ==>
                r == Success(CreateResponse(RESULT_DUPLICATE, old(idempotencyMap[idempotencyKey.value])))
                && orders == old(orders) && idempotencyMap == old(idempotencyMap)
      ensures HasKey(idempotencyKey) && old(idempotencyKey.value !in idempotencyMap) ==>
                var order := MakeOrder(payload, idempotencyKey.value, orderId, createdAt);
                && r == Success(CreateResponse(RESULT_CREATED, order))
                && orders == old(orders) + [order]
                && idempotencyMap == old(idempotencyMap)[idempotencyKey.value := order]
    {
      HandlePreservesValid(State(), payload, idempotencyKey, orderId, createdAt);
      if !HasKey(idempotencyKey) {
        return Failure(HttpError(STATUS_BAD_REQUEST, MISSING_KEY_DETAIL));
      }
      var key := idempotencyKey.value;
      if key in idempotencyMap {
        return Success(CreateResponse(RESULT_DUPLICATE, idempotencyMap[key]));
      }
      var order := MakeOrder(payload, key, orderId, createdAt);
      orders := orders + [order];
      idempotencyMap := idempotencyMap[key := order];
      return Success(CreateResponse(RESULT_CREATED, order));
    }

    /** The `GET /orders` handler, as written. */
    function ListOrders(limit: int := 20): (r: ListResponse)
      reads this
      ensures r.count == if limit < |orders| then limit else |orders|
      ensures |r.orders| == SliceEnd(|orders|, limit)
      ensures limit >= 0 ==> r.count == |r.orders|
      ensures forall i :: 0 <= i < |r.orders| ==> r.orders[i] == orders[|orders| - 1 - i]
    {
      ListResponseOf(orders, limit)
    }
  }
}
