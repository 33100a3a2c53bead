/**
 * The in-process idempotent order store as a value: an append-only list of
 * orders plus a map from idempotency key to order. The operations of
 * app/repositories/orders_repo.py and of the handlers in app/main.py are
 * defined here once, over this value, together with the invariant that ties
 * the list and the map together and the properties the store promises.
 */
module OrderStore {
  import opened Wrappers
  import opened Models

  /** The store's state: orders in creation order, and the key map. */
  datatype Store = Store(orders: seq<Order>, idem: map<string, Order>)

  /** What one create-if-absent call produces: the next state, the order it returns, and whether it built a new one. */
  datatype CreateStep = CreateStep(next: Store, order: Order, isNew: bool)

  /** The arguments of one create call, with the id and timestamp it would use for a new order. */
  datatype CreateRequest = CreateRequest(orderIn: OrderCreate, key: string, orderId: string, createdAt: string)

  /** The final state and the returned orders of a sequence of create calls. */
  datatype Run = Run(last: Store, returned: seq<Order>)

  /** No idempotency key appears on two orders of the list. */
  predicate UniqueKeys(orders: seq<Order>)
  {
    forall i, j :: 0 <= i < j < |orders| ==> orders[i].idempotencyKey != orders[j].idempotencyKey
  }

  /** No order id appears on two orders of the list. */
  predicate UniqueIds(orders: seq<Order>)
  {
    forall i, j :: 0 <= i < j < |orders| ==> orders[i].orderId != orders[j].orderId
  }

  /** The idempotency keys of the orders in the list. */
  function KeysOf(orders: seq<Order>): set<string>
  {
    set i | 0 <= i < |orders| :: orders[i].idempotencyKey
  }

  /** The order ids in use. */
  function IdsOf(orders: seq<Order>): set<string>
  {
    set i | 0 <= i < |orders| :: orders[i].orderId
  }

  /**
   * The store invariant: one order per key and per id, every key maps to an
   * order of the list that carries that key, and every order of the list is
   * the one its key maps to.
   */
  predicate Valid(s: Store)
  {
    && UniqueKeys(s.orders)
    && UniqueIds(s.orders)
    && (forall k :: k in s.idem ==> s.idem[k].idempotencyKey == k && s.idem[k] in s.orders)
    && (forall i :: 0 <= i < |s.orders| ==>
          s.orders[i].idempotencyKey in s.idem && s.idem[s.orders[i].idempotencyKey] == s.orders[i])
  }

  /** A freshly constructed store. */
  function Empty(): (s: Store)
    ensures Valid(s) && |s.orders| == 0 && |s.idem| == 0
  {
    Store([], map[])
  }

  // ---------------------------------------------------------------------------
  // Create if absent
  // ---------------------------------------------------------------------------

  /**
   * `create_order`: if the key is mapped, return its order and change nothing;
   * otherwise build an order, append it and map the key to it.
   */
  function CreateIfAbsent(s: Store, orderIn: OrderCreate, key: string, orderId: string, createdAt: string): (r: CreateStep)
    ensures r.isNew <==> key !in s.idem
    ensures key in r.next.idem && r.next.idem[key] == r.order
    ensures s.orders <= r.next.orders
    ensures |r.next.orders| == |s.orders| + (if r.isNew then 1 else 0)
    ensures !r.isNew ==> r.next == s
    ensures r.isNew ==> r.order == MakeOrder(orderIn, key, orderId, createdAt) && r.next.orders[|s.orders|] == r.order
    ensures r.isNew ==> r.next.idem == s.idem[key := r.order]
  {
    if key in s.idem then
      CreateStep(s, s.idem[key], false)
    else
      var order := MakeOrder(orderIn, key, orderId, createdAt);
      CreateStep(Store(s.orders + [order], s.idem[key := order]), order, true)
  }

  /**
   * Every create call keeps the invariant, provided a new order gets an id
   * that no order already has.
   */
  lemma CreatePreservesValid(s: Store, orderIn: OrderCreate, key: string, orderId: string, createdAt: string)
    requires Valid(s)
    requires key !in s.idem ==> orderId !in IdsOf(s.orders)
    ensures Valid(CreateIfAbsent(s, orderIn, key, orderId, createdAt).next)
  {
  }

  /** Creating twice with the same key returns the same order, and the second call changes nothing, whatever its payload. */
  lemma CreateIsIdempotent(s: Store, in1: OrderCreate, in2: OrderCreate, key: string,
                           id1: string, id2: string, t1: string, t2: string)
    ensures var first := CreateIfAbsent(s, in1, key, id1, t1);
            var second := CreateIfAbsent(first.next, in2, key, id2, t2);
            && !second.isNew
            && second.order == first.order
            && second.order.orderId == first.order.orderId
            && second.next == first.next
  {
  }

  /**
   * Creates with two different new keys give two different orders with
   * different ids, even for the same payload, and both are stored.
   */
  lemma DistinctKeysDistinctOrders(s: Store, orderIn: OrderCreate, k1: string, k2: string,
                                    id1: string, id2: string, t1: string, t2: string)
    requires Valid(s)
    requires k1 != k2 && k1 !in s.idem && k2 !in s.idem
    requires id1 !in IdsOf(s.orders) && id2 !in IdsOf(s.orders) && id1 != id2
    ensures var first := CreateIfAbsent(s, orderIn, k1, id1, t1);
            var second := CreateIfAbsent(first.next, orderIn, k2, id2, t2);
            && first.isNew && second.isNew
            && first.order != second.order
            && first.order.orderId != second.order.orderId
            && second.next.orders == s.orders + [first.order, second.order]
            && Valid(second.next)
  {
  }

  /** Applies create calls one after another, collecting what each returns. */
  function Replay(s: Store, reqs: seq<CreateRequest>): (r: Run)
    ensures |r.returned| == |reqs|
    ensures s.orders <= r.last.orders
    decreases reqs
  {
    if reqs == [] then Run(s, [])
    else
      var step := CreateIfAbsent(s, reqs[0].orderIn, reqs[0].key, reqs[0].orderId, reqs[0].createdAt);
      var rest := Replay(step.next, reqs[1..]);
      Run(rest.last, [step.order] + rest.returned)
  }

  /** Once a key is mapped, any number of creates with it return its order and change nothing. */
  lemma {:induction false} RetriesOfMappedKey(s: Store, reqs: seq<CreateRequest>, key: string)
    requires key in s.idem
    requires forall i :: 0 <= i < |reqs| ==> reqs[i].key == key
    ensures Replay(s, reqs).last == s
    ensures forall i :: 0 <= i < |reqs| ==> Replay(s, reqs).returned[i] == s.idem[key]
  {
    if reqs != [] {
      RetriesOfMappedKey(s, reqs[1..], key);
    }
  }

  /**
   * A burst of creates with one key, with arbitrary payloads, ids and
   * timestamps: all of them return the same order, that order is the one the
   * key maps to afterwards, and at most one order was added, none when the key
   * was mapped before.
   */
  lemma {:induction false} SameKeyBurst(s: Store, reqs: seq<CreateRequest>, key: string)
    requires |reqs| > 0
    requires forall i :: 0 <= i < |reqs| ==> reqs[i].key == key
    ensures var r := Replay(s, reqs);
            && (forall i :: 0 <= i < |reqs| ==> r.returned[i] == r.returned[0])
            && key in r.last.idem && r.last.idem[key] == r.returned[0]
            && |r.last.orders| == |s.orders| + (if key in s.idem then 0 else 1)
  {
    var step := CreateIfAbsent(s, reqs[0].orderIn, key, reqs[0].orderId, reqs[0].createdAt);
    RetriesOfMappedKey(step.next, reqs[1..], key);
  }

  // ---------------------------------------------------------------------------
  // Lookup
  // ---------------------------------------------------------------------------

  /**
   * `get_by_idempotency_key`: the map lookup, `None` for a key no create has
   * used. In a valid store a found order carries the key and is on the list.
   */
  function Lookup(s: Store, key: string): (r: Option<Order>)
    ensures r.Some? <==> key in s.idem
    ensures r.Some? ==> r.value == s.idem[key]
    ensures Valid(s) && r.Some? ==> r.value.idempotencyKey == key && r.value in s.orders
  {
    if key in s.idem then Some(s.idem[key]) else None
  }

  /** The reference definition of lookup: the first order in the list with the key. */
  function FindByKey(orders: seq<Order>, key: string): (r: Option<Order>)
    ensures r.Some? ==> r.value in orders && r.value.idempotencyKey == key
    ensures r.None? ==> forall i :: 0 <= i < |orders| ==> orders[i].idempotencyKey != key
    ensures r.Some? ==> exists i :: 0 <= i < |orders| && orders[i] == r.value &&
                                    forall j :: 0 <= j < i ==> orders[j].idempotencyKey != key
  {
    if orders == [] then None
    else if orders[0].idempotencyKey == key then Some(orders[0])
    else
      var r := FindByKey(orders[1..], key);
      if r.Some? then
        var i :| 0 <= i < |orders| - 1 && orders[1..][i] == r.value &&
                 forall j :: 0 <= j < i ==> orders[1..][j].idempotencyKey != key;
        assert orders[i + 1] == r.value;
        r
      else r
  }

  /**
   * In a valid store, the map lookup agrees with scanning the list: it gives
   * the order created under the key if there is one, and nothing otherwise.
   */
  lemma LookupMatchesScan(s: Store, key: string)
    requires Valid(s)
    ensures Lookup(s, key) == FindByKey(s.orders, key)
  {
  }

  /** After a create, looking the key up gives the order the create returned. */
  lemma LookupAfterCreate(s: Store, orderIn: OrderCreate, key: string, orderId: string, createdAt: string, other: string)
    ensures var r := CreateIfAbsent(s, orderIn, key, orderId, createdAt);
            && Lookup(r.next, key) == Some(r.order)
            && (other != key ==> Lookup(r.next, other) == Lookup(s, other))
  {
  }

  // ---------------------------------------------------------------------------
  // Listing
  // ---------------------------------------------------------------------------

  /**
   * The end index of the Python slice `s[:limit]` on a list of length `n`:
   * a negative limit counts from the end, and the result is clamped to the
   * list.
   */
  function SliceEnd(n: nat, limit: int): (e: nat)
    ensures e <= n
    ensures limit >= 0 ==> e == if limit < n then limit else n
    ensures limit < 0 ==> e == if n + limit < 0 then 0 else n + limit
  {
    if limit >= 0 then
      if limit < n then limit else n
    else
      if n + limit < 0 then 0 else n + limit
  }

  /** Python's `list(reversed(s))`. */
  function Reversed<T>(s: seq<T>): (r: seq<T>)
    ensures |r| == |s|
    ensures forall i :: 0 <= i < |s| ==> r[i] == s[|s| - 1 - i]
  {
    if s == [] then [] else [s[|s| - 1]] + Reversed(s[..|s| - 1])
  }

  /** `list(reversed(orders))[:limit]`: the orders newest first, cut at `limit`. */
  function NewestFirst(orders: seq<Order>, limit: int := 20): (r: seq<Order>)
    ensures |r| == SliceEnd(|orders|, limit)
    ensures limit >= 0 ==> |r| == if limit < |orders| then limit else |orders|
    ensures forall i :: 0 <= i < |r| ==> r[i] == orders[|orders| - 1 - i]
  {
    Reversed(orders)[..SliceEnd(|orders|, limit)]
  }

  /**
   * The listing is exactly the most recent orders, in reverse creation
   * order: the reversal of the list's suffix of the listing's length.
   */
  lemma NewestFirstIsRecentSuffix(orders: seq<Order>, limit: int)
    ensures var r := NewestFirst(orders, limit);
            r == Reversed(orders[|orders| - |r|..])
  {
  }

  /** A limit of 0 lists nothing; a limit of at least the size lists every order, newest first. */
  lemma NewestFirstBounds(orders: seq<Order>, limit: int)
    ensures NewestFirst(orders, 0) == []
    ensures limit >= |orders| ==> NewestFirst(orders, limit) == Reversed(orders)
  {
  }

  /**
   * As written, a negative limit is not clamped: on two orders, `limit = -1`
   * still lists one order, the newest, instead of none.
   */
  lemma NegativeLimitStillLists(o1: Order, o2: Order)
    ensures NewestFirst([o1, o2], -1) == [o2]
  {
  }

  /**
   * The listing with the limit clamped at 0: never more orders than a
   * non-negative limit allows, nothing for a negative limit, and the listing
   * as written whenever the limit is not negative.
   */
  function ClampedNewestFirst(orders: seq<Order>, limit: int := 20): (r: seq<Order>)
    ensures limit < 0 ==> r == []
    ensures limit >= 0 ==> r == NewestFirst(orders, limit) && |r| <= limit
    ensures |r| <= |orders|
    ensures forall i :: 0 <= i < |r| ==> r[i] == orders[|orders| - 1 - i]
  {
    NewestFirst(orders, if limit < 0 then 0 else limit)
  }

  // ---------------------------------------------------------------------------
  // Sizes
  // ---------------------------------------------------------------------------

  /** Distinct keys on the list mean as many keys as orders. */
  lemma {:induction false} UniqueKeysCount(orders: seq<Order>)
    requires UniqueKeys(orders)
    ensures |KeysOf(orders)| == |orders|
  {
    if orders != [] {
      var n := |orders| - 1;
      var prefix := orders[..n];
      var last := orders[n].idempotencyKey;
      assert UniqueKeys(prefix);
      UniqueKeysCount(prefix);
      assert KeysOf(orders) == KeysOf(prefix) + {last} by {
        forall k | k in KeysOf(orders) ensures k in KeysOf(prefix) + {last} {
          var i :| 0 <= i < |orders| && orders[i].idempotencyKey == k;
          if i < n {
            assert prefix[i].idempotencyKey == k;
          }
        }
        forall k | k in KeysOf(prefix) ensures k in KeysOf(orders) {
          var i :| 0 <= i < n && prefix[i].idempotencyKey == k;
          assert orders[i].idempotencyKey == k;
        }
      }
      assert last !in KeysOf(prefix) by {
        forall i | 0 <= i < n ensures prefix[i].idempotencyKey != last {
          assert orders[i].idempotencyKey != orders[n].idempotencyKey;
        }
      }
    }
  }

  /** In a valid store the map's keys are the list's keys, so list and map have the same size. */
  lemma ValidSizes(s: Store)
    requires Valid(s)
    ensures s.idem.Keys == KeysOf(s.orders)
    ensures |s.orders| == |s.idem|
  {
    assert s.idem.Keys == KeysOf(s.orders) by {
      forall k | k in s.idem ensures k in KeysOf(s.orders) {
        var i :| 0 <= i < |s.orders| && s.orders[i] == s.idem[k];
      }
    }
    UniqueKeysCount(s.orders);
  }
}
