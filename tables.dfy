/**
  The rows of the shop database that the transaction engine reads and writes,
  and the database itself as one object whose tables the handlers update.

  Row ids are SERIAL columns: the row at position `i` of a table has id `i + 1`.
  Money is kept in integer cents.
 */
module Tables {
  import opened Common

  /** A work session of one employee at one store; `open` is `shift_end IS NULL`.
      The store is NULL for a seller-role employee who has no store. */
  datatype Shift = Shift(employee: int, store: Option<int>, open: bool)

  datatype OpKind = Sale | Return

  /** One row of `operation_items`. */
  datatype Item = Item(product: int, quantity: int, unitPrice: int, purchasePrice: int,
                       totalPrice: int, cost: int, profit: int)

  /** One row of `operations` with its items; `day` is `created_at::date` as a day number. */
  datatype Operation = Operation(kind: OpKind, shift: int, employee: int, store: int, day: int,
                                 revenue: int, cost: int, profit: int,
                                 original: Option<int>, items: seq<Item>)

  /** One row of `notifications` (status `unread`, no warehouse). */
  datatype Notification = Notification(product: int, store: int, quantity: int, threshold: int)

  /** The two prices of a product that a sale or a return reads. */
  datatype Product = Product(retailPrice: int, purchasePrice: int)

  /** One row of `employees`. */
  datatype Employee = Employee(login: string, passwordHash: string, fullName: string,
                               role: string, store: Option<int>, active: bool)

  /** Revenue, cost and profit of an operation or a report, in cents. */
  datatype Money = Money(revenue: int, cost: int, profit: int)
  {
    function Plus(o: Money): Money { Money(revenue + o.revenue, cost + o.cost, profit + o.profit) }
    function Minus(o: Money): Money { Money(revenue - o.revenue, cost - o.cost, profit - o.profit) }
  }

  /** The settings of the configuration module that the core reads. */
  datatype Config = Config(shiftDurationSeconds: Option<int>, shiftDurationHours: int, lowStockThreshold: int)

  /** A stock table keyed by (store or warehouse id, product id). */
  type Stock = map<(int, int), int>

  /** The quantity a stock lookup reads: an absent row counts as 0. */
  function Qty(m: Stock, k: (int, int)): int {
    if k in m then m[k] else 0
  }

  /** `INSERT ... ON CONFLICT DO UPDATE SET quantity = quantity + q`. */
  function Upsert(m: Stock, k: (int, int), q: int): (r: Stock)
    ensures k in r && Qty(r, k) == Qty(m, k) + q
    ensures forall k' :: k' != k ==> Qty(r, k') == Qty(m, k')
    ensures r.Keys == m.Keys + {k}
  {
    m[k := Qty(m, k) + q]
  }

  /** `UPDATE ... SET quantity = quantity - q`: changes only a row that exists. */
  function Decrement(m: Stock, k: (int, int), q: int): (r: Stock)
    ensures k in m ==> Qty(r, k) == Qty(m, k) - q
    ensures k !in m ==> r == m
    ensures forall k' :: k' != k ==> Qty(r, k') == Qty(m, k')
    ensures r.Keys == m.Keys
  {
    if k in m then m[k := m[k] - q] else m
  }

  predicate NonNegative(m: Stock) {
    forall k :: k in m ==> m[k] >= 0
  }

  /** The shop database. */
  class Database {
    var storeStock: Stock
    var warehouseStock: Stock
    var shifts: seq<Shift>
    var operations: seq<Operation>
    var notifications: seq<Notification>
    var products: map<int, Product>
    var employees: seq<Employee>

    constructor ()
      ensures storeStock == map[] && warehouseStock == map[]
      ensures shifts == [] && operations == [] && notifications == []
      ensures products == map[] && employees == []
    {
      storeStock := map[];
      warehouseStock := map[];
      shifts := [];
      operations := [];
      notifications := [];
      products := map[];
      employees := [];
    }
  }
}
