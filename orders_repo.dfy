/**
 * The in-memory order repository (app/repositories/orders_repo.py): an
 * object whose list of orders and key map are updated in place by
 * `CreateOrder`, and read by the two queries.
 */
module OrdersRepo {
  import opened Wrappers
  import opened Models
  import opened OrderStore

  class InMemoryOrdersRepo {
    /** The orders, oldest first; only ever appended to. */
    var orders: seq<Order>
    /** Idempotency key to the order created under it. */
    var idem: map<string, Order>

    /** The repository's state as a store value. */
    function State(): Store
      reads this
    {
      Store(orders, idem)
    }

    /** The object invariant: the list and the map agree (see OrderStore.Valid). */
    ghost predicate Valid()
      reads this
    {
      OrderStore.Valid(State())
    }

    /** A repository with no orders. */
    constructor ()
      ensures Valid()
      ensures orders == [] && idem == map[]
    {
      orders := [];
      idem := map[];
    }

    /**
     * Create if absent. `orderId` and `createdAt` stand for the values that
     * `uuid4()` and the clock would give the new order; the id is fresh
     * whenever a new order is built.
     */
    method CreateOrder(orderIn: OrderCreate, idempotencyKey: string, orderId: string, createdAt: string)
      returns (order: Order)
      requires Valid()
      requires idempotencyKey !in idem ==> orderId !in IdsOf(orders)
      modifies this
      ensures Valid()
      ensures var step := CreateIfAbsent(old(State()), orderIn, idempotencyKey, orderId, createdAt);
              State() == step.next && order == step.order
      ensures old(idempotencyKey in idem) ==>
                order == old(idem[idempotencyKey]) && orders == old(orders) && idem == old(idem)
      ensures old(idempotencyKey !in idem) ==>
                && order == MakeOrder(orderIn, idempotencyKey, orderId, createdAt)
                && orders == old(orders) + [order]
                && idem == old(idem)[idempotencyKey := order]
      ensures idempotencyKey in idem && idem[idempotencyKey] == order
    {
      CreatePreservesValid(State(), orderIn, idempotencyKey, orderId, createdAt);
      if idempotencyKey in idem {
        return idem[idempotencyKey];
      }
      order := MakeOrder(orderIn, idempotencyKey, orderId, createdAt);
      orders := orders + [order];
      idem := idem[idempotencyKey := order];
    }

    /** The order created under the key, if any: the same answer as scanning the list. */
    function GetByIdempotencyKey(idempotencyKey: string): (r: Option<Order>)
      reads this
      requires Valid()
      ensures r == FindByKey(orders, idempotencyKey)
      ensures r.Some? <==> idempotencyKey in KeysOf(orders)
      ensures r.Some? ==> r.value in orders && r.value.idempotencyKey == idempotencyKey
    {
      LookupMatchesScan(State(), idempotencyKey);
      Lookup(State(), idempotencyKey)
    }

    /**
     * The most recent orders, newest first, as many as the Python slice
     * `[:limit]` keeps: `min(limit, |orders|)` for a non-negative limit.
     */
    function ListOrders(limit: int := 20): (r: seq<Order>)
      reads this
      ensures |r| == SliceEnd(|orders|, limit)
      ensures limit >= 0 ==> |r| == if limit < |orders| then limit else |orders|
      ensures forall i :: 0 <= i < |r| ==> r[i] == orders[|orders| - 1 - i]
      ensures r == Reversed(orders[|orders| - |r|..])
    {
      NewestFirstIsRecentSuffix(orders, limit);
      NewestFirst(orders, limit)
    }
  }

  /** A retried create returns the first order and leaves the repository as it was. */
  method RetryScenario(repo: InMemoryOrdersRepo, p1: OrderCreate, p2: OrderCreate, key: string,
                       id1: string, id2: string, t1: string, t2: string)
    returns (first: Order, second: Order)
    requires repo.Valid()
    requires key !in repo.idem && id1 !in IdsOf(repo.orders)
    modifies repo
    ensures repo.Valid()
    ensures second == first && second.orderId == id1
    ensures repo.orders == old(repo.orders) + [first]
    ensures repo.GetByIdempotencyKey(key) == Some(first)
  {
    first := repo.CreateOrder(p1, key, id1, t1);
    second := repo.CreateOrder(p2, key, id2, t2);
  }
}
