# Idempotent order store — Dafny model

This project models the core of a small order service: creating orders with
"create if absent, keyed on the idempotency key". A client sends an order
payload (`user_id`, `amount`, optional `currency`, default `"EUR"`) with an
`Idempotency-Key` header. The first request with a key builds and stores an
order. Every later request with the same key gets that same order back and
stores nothing.

The store is an append-only list of orders plus a map from idempotency key to
order. The code holds it in two places, and both are modelled:

- `InMemoryOrdersRepo` (`app/repositories/orders_repo.py`): a class with
  `create_order`, `get_by_idempotency_key` and `list_orders`. Here it is the
  class `OrdersRepo.InMemoryOrdersRepo`, whose fields `orders` and `idem` are
  updated in place by `CreateOrder`.
- The handlers in `app/main.py`, over the module-level globals `ORDERS` and
  `IDEMPOTENCY_MAP`. Here the globals are the fields of the class
  `Api.OrdersApp`. The `POST /orders` handler adds the request contract: a
  missing or empty key gives a 400 error, and the response envelope says
  `"created"` or `"duplicate_request_returned_existing"`. The `GET /orders`
  handler returns `count = min(limit, len(ORDERS))` with the orders newest
  first.

The algorithm shared by both is defined once, over a store value, in module
`OrderStore`. Both classes' methods state their new state as that module's
functions applied to their old state. The invariant `OrderStore.Valid` ties
the list and the map together:

- no key is on two orders, and no order id is on two orders;
- each map entry `k ↦ o` has `o.idempotencyKey == k` and `o` in the list;
- each order of the list is the one its key maps to.

Every create keeps this invariant. From it follows that the list and the map
have the same size (`ValidSizes`), and that the map lookup gives the same
answer as scanning the list (`LookupMatchesScan`).

`make_order` (`app/models.py`) is `Models.MakeOrder`. `uuid4()` and
`datetime.now(timezone.utc).isoformat()` cannot be modelled as behaviour, so
they are parameters: `orderId` and `createdAt`. In the modelled code
`uuid4()` is called only on the new-key path: in `make_order`
(app/models.py:12), which `create_order` reaches only for a new key
(app/repositories/orders_repo.py:13), and inline in the `POST /orders` handler
after the duplicate check (app/main.py:36). So the id is required to be unused
by any stored order only when a new order is built. `main.py` builds the order dictionary inline
rather than calling `make_order`, but with the same seven fields and values,
so the model uses `MakeOrder` for both.

Python's slice `list(reversed(xs))[:limit]` is modelled exactly, negative
limits included (`OrderStore.SliceEnd`): a negative limit drops that many
elements from the end of the reversed list, that is, the oldest orders.

Modules:

- `Wrappers` (`wrappers.dfy`): `Option` and `Result`.
- `Models` (`models.dfy`): `OrderCreate`, `Order`, `MakeOrder`.
- `OrderStore` (`order_store.dfy`): the store value, its invariant, the
  operations and the lemmas.
- `OrdersRepo` (`orders_repo.dfy`): the repository class.
- `Api` (`api.dfy`): the handlers of `app/main.py` and their class.

## Model

| member | source | states |
|---|---|---|
| `Models.MakeOrder` | app/models.py:10-19 | the new order carries the payload unchanged (`PayloadOf(o) == orderIn`), status `"created"`, the given key verbatim, and the supplied id and timestamp |
| `Models.DefaultCurrency` | app/models.py:5-8 | a payload built without a currency has currency `"EUR"` |
| `Models.OnlyIdAndTimestampVary` | app/models.py:10-19 | id and timestamp are the only fields not taken from the arguments: two orders built from one payload and key are equal iff their ids and timestamps are; different ids give different order ids |
| `OrderStore.Empty` | app/repositories/orders_repo.py:5-7 | the empty store satisfies the list/map invariant |
| `OrderStore.CreateIfAbsent` | app/repositories/orders_repo.py:9-16 | a new order is built iff the key is unmapped; afterwards the key maps to the returned order; earlier orders are a prefix of the new list; the list grows by exactly one on the new-key path, where the new map is the old one with the key mapped to the new order, and the state is unchanged on the duplicate path |
| `OrderStore.CreatePreservesValid` | app/repositories/orders_repo.py:9-16 | every create keeps the invariant (unique keys and ids, map and list agree), given a fresh id for a new order |
| `OrderStore.CreateIsIdempotent` | app/repositories/orders_repo.py:9-16 | a second create with the same key, any payload, returns the same order (same `order_id`) and changes nothing |
| `OrderStore.DistinctKeysDistinctOrders` | app/repositories/orders_repo.py:9-16 | two new distinct keys, even with the same payload, give two distinct orders with distinct ids, both appended in order, and the invariant holds |
| `OrderStore.Replay` | app/repositories/orders_repo.py:9-16 | a sequence of creates returns one order per call and only appends to the list |
| `OrderStore.RetriesOfMappedKey` | app/repositories/orders_repo.py:10-11 | once a key is mapped, any number of creates with it return its order and leave the store unchanged |
| `OrderStore.SameKeyBurst` | app/repositories/orders_repo.py:9-16 | any burst of creates with one key returns the same order every time, that order is what the key maps to, and at most one order is added (none if the key was mapped) |
| `OrderStore.Lookup` | app/repositories/orders_repo.py:18-19 | `_idem.get(key)`: an order exactly when the key is mapped, and then `_idem[key]`; in a valid store that order carries the key and is on the list (it equals the list scan, see `LookupMatchesScan`) |
| `OrderStore.FindByKey` | app/repositories/orders_repo.py:18-19 | the reference lookup by scanning the list: a found order is the first order on the list that carries the key; nothing found means no order carries the key |
| `OrderStore.LookupMatchesScan` | app/repositories/orders_repo.py:18-19 | in a valid store the map lookup equals the list scan: the order created under the key, or nothing |
| `OrderStore.LookupAfterCreate` | app/repositories/orders_repo.py:9-19 | after a create, looking up its key gives the returned order, and lookups of other keys are unchanged |
| `OrderStore.SliceEnd` | app/repositories/orders_repo.py:22 | the definition of Python's stop rule for `[:limit]` on a list of length `n`, written out by sign: `min(limit, n)` for `limit >= 0`, `max(0, n + limit)` for a negative limit; the one derived fact is that it never exceeds `n` |
| `OrderStore.Reversed` | app/repositories/orders_repo.py:22 | `list(reversed(s))` has the same length and element `i` is `s[len(s)-1-i]` |
| `OrderStore.NewestFirst` | app/repositories/orders_repo.py:21-22 | the listing has `min(limit, len(orders))` elements for `limit >= 0` (the slice length in general) and element `i` is the `i`-th newest order |
| `OrderStore.NewestFirstIsRecentSuffix` | app/repositories/orders_repo.py:21-22 | the listing is exactly the most recent orders in reverse creation order |
| `OrderStore.NewestFirstBounds` | app/repositories/orders_repo.py:22 | limit 0 lists nothing; a limit of at least the number of orders lists all of them, newest first |
| `OrderStore.NegativeLimitStillLists` | app/repositories/orders_repo.py:22 | as written, two orders and `limit = -1` list the newest order rather than nothing |
| `OrderStore.ClampedNewestFirst` | app/repositories/orders_repo.py:21-22 | the listing with the limit clamped at 0: nothing for a negative limit, at most `limit` orders otherwise and then the same listing as written, newest first |
| `OrderStore.UniqueKeysCount` | app/repositories/orders_repo.py:14-15 | a list with distinct keys has as many keys as orders |
| `OrderStore.ValidSizes` | app/repositories/orders_repo.py:6-7 | in a valid store the map's keys are exactly the list's keys, so `len(_orders) == len(_idem)` |
| `OrdersRepo.InMemoryOrdersRepo.constructor` | app/repositories/orders_repo.py:5-7 | a new repository has an empty list and map and satisfies the invariant |
| `OrdersRepo.InMemoryOrdersRepo.CreateOrder` | app/repositories/orders_repo.py:9-16 | keeps the invariant; on a mapped key returns `_idem[key]` and changes nothing; on a new key appends exactly the built order, maps the key to it and returns it |
| `OrdersRepo.InMemoryOrdersRepo.GetByIdempotencyKey` | app/repositories/orders_repo.py:18-19 | returns what scanning the list for the key returns: the order created under the key if there is one, else `None`; reads only |
| `OrdersRepo.InMemoryOrdersRepo.ListOrders` | app/repositories/orders_repo.py:21-22 | returns the slice length of orders (`min(limit, len(orders))` for `limit >= 0`), newest first, exactly the most recent ones; reads only |
| `OrdersRepo.RetryScenario` | app/repositories/orders_repo.py:9-16 | two creates with one new key, different payloads: both return the first order, with the first id, and only one order is stored |
| `Api.HasKey` | app/main.py:28 | Python truthiness of the header: false exactly for a missing header (`None`) and for the empty string |
| `Api.HandleCreate` | app/main.py:22-47 | an error iff the key is missing or empty, then 400 "Missing Idempotency-Key header" and no change; otherwise `"duplicate_request_returned_existing"` iff the key was mapped (existing order, no change) and `"created"` iff not (new order appended and mapped) |
| `Api.CreatedOrderFields` | app/main.py:35-47 | a created order has status `"created"`, the payload's `user_id`, `amount`, `currency`, and the header's key |
| `Api.RetryReturnsSameOrder` | app/main.py:31-47 | two requests with one key: the second gets the duplicate envelope around the order the first returned, same `order_id`, and no state change |
| `Api.HandlePreservesValid` | app/main.py:28-47 | every request keeps `ORDERS` and `IDEMPOTENCY_MAP` consistent, with one entry per key and equal sizes |
| `Api.ListResponseOf` | app/main.py:49-52 | `count` is `min(limit, len(ORDERS))`, equal to the number of orders returned when `limit >= 0`; the orders are the most recent ones, newest first |
| `Api.NegativeLimitCountMismatch` | app/main.py:52 | as written, one stored order and `limit = -1` give `count == -1` with no orders |
| `Api.ClampedListResponse` | app/main.py:49-52 | with the limit clamped at 0, `count` always equals the number of orders returned and is never negative; same response as written for `limit >= 0` |
| `Api.OrdersApp.constructor` | app/main.py:10-11 | `ORDERS` and `IDEMPOTENCY_MAP` start empty and consistent |
| `Api.OrdersApp.CreateOrder` | app/main.py:22-47 | keeps the invariant; a missing or empty key gives the 400 error and no change; a mapped key gives the duplicate envelope with `IDEMPOTENCY_MAP[key]` and no change; a new key gives `"created"`, appends the order and maps the key to it |
| `Api.OrdersApp.ListOrders` | app/main.py:49-52 | `count == min(limit, len(ORDERS))`, equal to the number of orders for `limit >= 0`, newest first; reads only |

## Left out

- `app/repositories/postgres_orders_repo.py` is not part of this model. It is database I/O: connection setup, table creation, SQL insert and select, commit and rollback. Its atomicity comes from the database's unique constraint, which cannot be seen here. Its "insert, else read back" result has the same shape as `OrderStore.CreateIfAbsent`.
- `app/config.py` is not part of this model: it only reads an environment variable.
- FastAPI routing, pydantic parsing and validation, header aliasing and the `/health` endpoint are framework plumbing and are not modelled.
- `uuid4()` and `datetime.now(...).isoformat()` are parameters (`orderId`, `createdAt`). The model does not generate ids. It requires that a new order's id is unused, as a random UUID is with overwhelming probability.
- `amount` is a Python float. It is carried as a Dafny `real`, and no arithmetic is done on it.
- `created_at` is an opaque string. Listing follows insertion order, as the in-memory code does; no relation between timestamps and that order is modelled.
- Concurrency and locking: the code shown has no locks, and the model is sequential. Interleaved creates with one key are not modelled; sequential bursts are (`OrderStore.SameKeyBurst`).
- `main.py` declares its own `OrderCreate` (app/main.py:13-16), identical to the one in `app/models.py`. The model has one `Models.OrderCreate` for both.

## Findings

| source | as written | input that shows it | evidently intended | confidence | as-written member | corrected member |
|---|---|---|---|---|---|---|
| app/main.py:52 | `count` is `min(limit, len(ORDERS))` while `orders` is `list(reversed(ORDERS))[:limit]`; a negative limit is not rejected | one stored order, `GET /orders?limit=-1`: `count` is -1 and `orders` is empty | the limit is clamped at 0, and `count` is the number of orders returned | medium, not executed | `Api.ListResponseOf`, `Api.NegativeLimitCountMismatch` | `Api.ClampedListResponse` |
| app/repositories/orders_repo.py:22 | `list(reversed(self._orders))[:limit]` with no clamp, so a negative limit drops the oldest orders instead of listing none | two stored orders, `list_orders(-1)`: returns the newest order | the limit is clamped at 0, so a negative limit lists nothing | medium, not executed | `OrderStore.NewestFirst`, `OrderStore.NegativeLimitStillLists` | `OrderStore.ClampedNewestFirst` |

`Api.OrdersApp.ListOrders` and `OrdersRepo.InMemoryOrdersRepo.ListOrders`
keep the behaviour as written, so that the classes stay models of the code.
`Api.ClampedListResponse` and `OrderStore.ClampedNewestFirst` give the
corrected behaviour beside them.
