/**
 * The records of the order service: the create-order payload and the order
 * record built from it (app/models.py).
 *
 * The two nondeterministic inputs of the constructor, the generated order id
 * (`uuid4()`) and the creation timestamp (`datetime.now(...)`), are parameters.
 */
module Models {

  /** Currency of a payload that does not name one. */
  const DEFAULT_CURRENCY: string := "EUR"

  /** The only status an order receives from this service. */
  const STATUS_CREATED: string := "created"

  /**
   * The body of a create-order request. `amount` is a float in the source;
   * it is carried as an opaque number and never computed with.
   */
  datatype OrderCreate = OrderCreate(userId: string, amount: real, currency: string := DEFAULT_CURRENCY)

  /** A persisted order, with the seven fields of its JSON shape. */
  datatype Order = Order(
    orderId: string,
    userId: string,
    amount: real,
    currency: string,
    status: string,
    createdAt: string,
    idempotencyKey: string)

  /** The caller-supplied part of an order: the payload it was built from. */
  function PayloadOf(o: Order): OrderCreate
  {
    OrderCreate(o.userId, o.amount, o.currency)
  }

  /**
   * Builds a new order from a payload and an idempotency key. `orderId`
   * stands for the freshly generated id and `createdAt` for the timestamp.
   */
  function MakeOrder(orderIn: OrderCreate, idempotencyKey: string, orderId: string, createdAt: string): (o: Order)
    ensures PayloadOf(o) == orderIn
    ensures o.status == STATUS_CREATED
    ensures o.idempotencyKey == idempotencyKey
    ensures o.orderId == orderId && o.createdAt == createdAt
  {
    Order(orderId, orderIn.userId, orderIn.amount, orderIn.currency, STATUS_CREATED, createdAt, idempotencyKey)
  }

  /** A payload built without a currency has the default one. */
  lemma DefaultCurrency(userId: string, amount: real)
    ensures OrderCreate(userId, amount).currency == "EUR"
  {
  }

  /**
   * The id and the timestamp are the only fields of a new order that are not
   * taken from the arguments: two orders built from the same payload and key
   * are equal exactly when their ids and timestamps are, and orders built
   * with different ids are different orders.
   */
  lemma OnlyIdAndTimestampVary(orderIn: OrderCreate, key: string, id1: string, t1: string, id2: string, t2: string)
    ensures MakeOrder(orderIn, key, id1, t1) == MakeOrder(orderIn, key, id2, t2) <==> id1 == id2 && t1 == t2
    ensures id1 != id2 ==> MakeOrder(orderIn, key, id1, t1).orderId != MakeOrder(orderIn, key, id2, t2).orderId
  {
  }
}
