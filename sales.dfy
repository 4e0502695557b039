/**
  The rules a sale and a return apply to their request lines, independent of
  the handlers that run them: which lines are kept, how each is priced, the
  totals, the stock check, the stock writes, the low-stock notices, and the
  "remaining to return" bound.
 */
module Sales {
  import opened Common
  import opened Tables

  /** One entry of a request's `items` list: `product_id` (absent, null and 0
      are all falsy) and `quantity` as parsed by `int(... or 0)`. */
  datatype RequestLine = RequestLine(product: Option<int>, quantity: int)

  /** A kept line, priced from the product row. */
  datatype Line = Line(product: int, quantity: int, price: int, unitCost: int)

  /** A validated return line, before pricing. */
  datatype Want = Want(product: int, quantity: int)

  /** A request line the loops look at at all: a truthy product and a positive quantity. */
  predicate Considered(r: RequestLine) {
    Truthy(r.product) && r.quantity > 0
  }

  /** The priced line for a product that exists. */
  function PriceLine(p: int, q: int, products: map<int, Product>): (l: Line)
    requires p in products
    ensures l.product == p && l.quantity == q
    ensures l.price == products[p].retailPrice && l.unitCost == products[p].purchasePrice
  {
    Line(p, q, products[p].retailPrice, products[p].purchasePrice)
  }

  // ---------------------------------------------------------------- sale lines

  /** A sale keeps a request line with a truthy product, a positive quantity
      and a product row. */
  predicate KeptSale(r: RequestLine, products: map<int, Product>) {
    Considered(r) && r.product.value in products
  }

  /** The lines of a sale, in request order. */
  function SaleLines(req: seq<RequestLine>, products: map<int, Product>): (lines: seq<Line>)
    ensures |lines| <= |req|
    ensures forall i :: 0 <= i < |lines| ==>
      lines[i].quantity > 0 && lines[i].product != 0 && lines[i].product in products &&
      lines[i] == PriceLine(lines[i].product, lines[i].quantity, products)
  {
    if req == [] then []
    else
      var r := req[|req| - 1];
      SaleLines(req[..|req| - 1], products) +
        (if KeptSale(r, products) then [PriceLine(r.product.value, r.quantity, products)] else [])
  }

  /** A sale has no line exactly when no request line is kept. */
  lemma {:induction false} SaleLinesEmpty(req: seq<RequestLine>, products: map<int, Product>)
    ensures SaleLines(req, products) == [] <==> forall i :: 0 <= i < |req| ==> !KeptSale(req[i], products)
  {
    if req != [] {
      var n := |req| - 1;
      SaleLinesEmpty(req[..n], products);
      assert forall i :: 0 <= i < n ==> req[..n][i] == req[i];
    }
  }

  /** Lines keep request order: the lines of `a + b` are those of `a`, then those of `b`. */
  lemma {:induction false} SaleLinesConcat(a: seq<RequestLine>, b: seq<RequestLine>, products: map<int, Product>)
    ensures SaleLines(a + b, products) == SaleLines(a, products) + SaleLines(b, products)
    decreases |b|
  {
    if b == [] {
      assert a + b == a;
    } else {
      var ab := a + b;
      assert ab[..|ab| - 1] == a + b[..|b| - 1];
      assert ab[|ab| - 1] == b[|b| - 1];
      SaleLinesConcat(a, b[..|b| - 1], products);
    }
  }

  // ---------------------------------------------------------------- money

  /** Revenue = price x qty, cost = unit cost x qty, profit = revenue - cost. */
  function LineMoney(l: Line): (m: Money)
    ensures m.profit == m.revenue - m.cost
  {
    Money(l.price * l.quantity, l.unitCost * l.quantity, l.price * l.quantity - l.unitCost * l.quantity)
  }

  /** The running totals of the pricing loop. */
  function Totals(lines: seq<Line>): Money
  {
    if lines == [] then Money(0, 0, 0) else Totals(lines[..|lines| - 1]).Plus(LineMoney(lines[|lines| - 1]))
  }

  /** The operation's profit is its revenue minus its cost. */
  lemma {:induction false} TotalsProfit(lines: seq<Line>)
    ensures Totals(lines).profit == Totals(lines).revenue - Totals(lines).cost
  {
    if lines != [] {
      TotalsProfit(lines[..|lines| - 1]);
    }
  }

  /** Totals add up over concatenation. */
  lemma {:induction false} TotalsConcat(a: seq<Line>, b: seq<Line>)
    ensures Totals(a + b) == Totals(a).Plus(Totals(b))
    decreases |b|
  {
    if b == [] {
      assert a + b == a;
    } else {
      var ab := a + b;
      assert ab[..|ab| - 1] == a + b[..|b| - 1];
      assert ab[|ab| - 1] == b[|b| - 1];
      TotalsConcat(a, b[..|b| - 1]);
    }
  }

  /** The `operation_items` row of a line with the line cost in `cost`
      (the evidently intended row; see `ItemAsWritten`). */
  function ItemOf(l: Line): (it: Item)
    ensures it.product == l.product && it.quantity == l.quantity
    ensures it.unitPrice == l.price && it.purchasePrice == l.unitCost
    ensures Money(it.totalPrice, it.cost, it.profit) == LineMoney(l)
  {
    Item(l.product, l.quantity, l.price, l.unitCost,
         l.price * l.quantity, l.unitCost * l.quantity, l.price * l.quantity - l.unitCost * l.quantity)
  }

  /** The row as the handlers write it: both `purchase_price` and `cost`
      receive the unit purchase price, while `total_price` and `profit` are
      line totals. */
  function ItemAsWritten(l: Line): (it: Item)
    ensures it.product == l.product && it.quantity == l.quantity
    ensures it.unitPrice == l.price && it.purchasePrice == l.unitCost && it.cost == l.unitCost
    ensures it.totalPrice == LineMoney(l).revenue && it.profit == LineMoney(l).profit
  {
    Item(l.product, l.quantity, l.price, l.unitCost,
         l.price * l.quantity, l.unitCost, l.price * l.quantity - l.unitCost * l.quantity)
  }

  /** As written, a row of two units bought at 6.00 records a cost of 6.00
      next to a profit that subtracts 12.00. */
  lemma ItemAsWrittenCostIsUnitCost()
    ensures var it := ItemAsWritten(Line(1, 2, 1000, 600));
      it.cost == 600 && it.profit == 800 && it.profit != it.totalPrice - it.cost
    ensures ItemOf(Line(1, 2, 1000, 600)).cost == 1200
  {
  }

  /** The two rows differ exactly when the line has a quantity other than 1
      and a non-zero unit cost. */
  lemma ItemAsWrittenDiffers(l: Line)
    ensures ItemAsWritten(l) != ItemOf(l) <==> l.unitCost * l.quantity != l.unitCost
  {
  }

  /** The rows the handlers write for an operation, one per line, in order. */
  function Items(lines: seq<Line>): (items: seq<Item>)
    ensures |items| == |lines|
    ensures forall i :: 0 <= i < |lines| ==> items[i] == ItemAsWritten(lines[i])
  {
    if lines == [] then [] else Items(lines[..|lines| - 1]) + [ItemAsWritten(lines[|lines| - 1])]
  }

  /** The rows of an operation with the corrected `cost` column. */
  function CorrectedItems(lines: seq<Line>): (items: seq<Item>)
    ensures |items| == |lines|
    ensures forall i :: 0 <= i < |lines| ==> items[i] == ItemOf(lines[i])
  {
    if lines == [] then [] else CorrectedItems(lines[..|lines| - 1]) + [ItemOf(lines[|lines| - 1])]
  }

  /** The written rows differ from the corrected ones in the `cost` column only. */
  lemma ItemsDifferInCostOnly(lines: seq<Line>)
    ensures forall i :: 0 <= i < |lines| ==>
      Items(lines)[i] == CorrectedItems(lines)[i].(cost := lines[i].unitCost)
  {
  }

  /** The sums of the item rows' `total_price`, `cost` and `profit`. */
  function ItemsMoney(items: seq<Item>): Money
  {
    if items == [] then Money(0, 0, 0)
    else
      var it := items[|items| - 1];
      ItemsMoney(items[..|items| - 1]).Plus(Money(it.totalPrice, it.cost, it.profit))
  }

  /** The operation's totals are the sums of its corrected item rows. */
  lemma {:induction false} ItemsMatchTotals(lines: seq<Line>)
    ensures ItemsMoney(CorrectedItems(lines)) == Totals(lines)
  {
    if lines != [] {
      var n := |lines| - 1;
      ItemsMatchTotals(lines[..n]);
      assert CorrectedItems(lines)[..n] == CorrectedItems(lines[..n]);
    }
  }

  /** The written rows' revenue and profit still sum to the operation's
      totals; only their `cost` column does not. */
  lemma {:induction false} WrittenItemsMatchRevenueAndProfit(lines: seq<Line>)
    ensures ItemsMoney(Items(lines)).revenue == Totals(lines).revenue
    ensures ItemsMoney(Items(lines)).profit == Totals(lines).profit
  {
    if lines != [] {
      var n := |lines| - 1;
      WrittenItemsMatchRevenueAndProfit(lines[..n]);
      assert Items(lines)[..n] == Items(lines[..n]);
    }
  }

  // ---------------------------------------------------------------- stock

  /** The line's store stock (absent row = 0) covers its quantity. */
  predicate Covered(stock: Stock, store: int, l: Line) {
    Qty(stock, (store, l.product)) >= l.quantity
  }

  /** The sale's stock check: the stock of the first uncovered line, if any. */
  function Shortage(stock: Stock, store: int, lines: seq<Line>): (r: Option<int>)
    ensures r.None? <==> forall i :: 0 <= i < |lines| ==> Covered(stock, store, lines[i])
    ensures r.Some? ==>
      exists i :: 0 <= i < |lines| && !Covered(stock, store, lines[i]) &&
        r.value == Qty(stock, (store, lines[i].product)) &&
        forall j :: 0 <= j < i ==> Covered(stock, store, lines[j])
  {
    if lines == [] then None
    else if !Covered(stock, store, lines[0]) then Some(Qty(stock, (store, lines[0].product)))
    else
      var r := Shortage(stock, store, lines[1..]);
      assert forall i :: 1 <= i < |lines| ==> lines[1..][i - 1] == lines[i];
      if r.Some? then
        var i :| 0 <= i < |lines| - 1 && !Covered(stock, store, lines[1..][i]) &&
          r.value == Qty(stock, (store, lines[1..][i].product)) &&
          forall j :: 0 <= j < i ==> Covered(stock, store, lines[1..][j]);
        assert !Covered(stock, store, lines[i + 1]);
        r
      else r
  }

  /** The total quantity of product `p` over lines. */
  function LineQty(lines: seq<Line>, p: int): int
  {
    if lines == [] then 0
    else LineQty(lines[..|lines| - 1], p) + (if lines[|lines| - 1].product == p then lines[|lines| - 1].quantity else 0)
  }

  /** A sale's stock writes: one `quantity - q` update per line, in order. */
  function DebitAll(stock: Stock, store: int, lines: seq<Line>): (r: Stock)
    ensures r.Keys == stock.Keys
  {
    if lines == [] then stock
    else
      var l := lines[|lines| - 1];
      Decrement(DebitAll(stock, store, lines[..|lines| - 1]), (store, l.product), l.quantity)
  }

  /** When every line's row exists, each row of the store drops by the
      quantity its product is sold in, and no other row changes. */
  lemma {:induction false} DebitAllQty(stock: Stock, store: int, lines: seq<Line>, p: int)
    requires forall i :: 0 <= i < |lines| ==> (store, lines[i].product) in stock
    ensures Qty(DebitAll(stock, store, lines), (store, p)) == Qty(stock, (store, p)) - LineQty(lines, p)
    ensures forall k: (int, int) :: k.0 != store ==> Qty(DebitAll(stock, store, lines), k) == Qty(stock, k)
  {
    if lines != [] {
      var n := |lines| - 1;
      assert forall i :: 0 <= i < n ==> lines[..n][i] == lines[i];
      DebitAllQty(stock, store, lines[..n], p);
    }
  }

  /** A sale naming each product at most once. */
  predicate DistinctLines(lines: seq<Line>) {
    forall i, j :: 0 <= i < j < |lines| ==> lines[i].product != lines[j].product
  }

  /** With distinct products a product's quantity is that of its one line, or 0. */
  lemma {:induction false} LineQtyDistinct(lines: seq<Line>, p: int)
    requires DistinctLines(lines)
    ensures (forall i :: 0 <= i < |lines| ==> lines[i].product != p) ==> LineQty(lines, p) == 0
    ensures forall i :: 0 <= i < |lines| && lines[i].product == p ==> LineQty(lines, p) == lines[i].quantity
  {
    if lines != [] {
      var n := |lines| - 1;
      assert forall i :: 0 <= i < n ==> lines[..n][i] == lines[i];
      LineQtyDistinct(lines[..n], p);
    }
  }

  /** The stock check passes for positive quantities only when every line's row
      exists, since an absent row reads as 0. */
  lemma CheckedRowsExist(stock: Stock, store: int, lines: seq<Line>)
    requires Shortage(stock, store, lines).None?
    requires forall i :: 0 <= i < |lines| ==> lines[i].quantity > 0
    ensures forall i :: 0 <= i < |lines| ==> (store, lines[i].product) in stock
  {
    forall i | 0 <= i < |lines| ensures (store, lines[i].product) in stock {
      assert Covered(stock, store, lines[i]);
    }
  }

  /** A checked sale with distinct products drops each line's row by exactly
      its quantity and keeps every stock row non-negative. */
  lemma SaleKeepsStockNonNegative(stock: Stock, store: int, lines: seq<Line>)
    requires NonNegative(stock)
    requires Shortage(stock, store, lines).None?
    requires DistinctLines(lines)
    requires forall i :: 0 <= i < |lines| ==> lines[i].quantity > 0
    ensures forall i :: 0 <= i < |lines| ==>
      Qty(DebitAll(stock, store, lines), (store, lines[i].product)) == Qty(stock, (store, lines[i].product)) - lines[i].quantity
    ensures NonNegative(DebitAll(stock, store, lines))
  {
    CheckedRowsExist(stock, store, lines);
    var after := DebitAll(stock, store, lines);
    forall i | 0 <= i < |lines|
      ensures Qty(after, (store, lines[i].product)) == Qty(stock, (store, lines[i].product)) - lines[i].quantity
    {
      DebitAllQty(stock, store, lines, lines[i].product);
      LineQtyDistinct(lines, lines[i].product);
      assert Covered(stock, store, lines[i]);
    }
    forall k | k in after ensures after[k] >= 0 {
      DebitAllQty(stock, store, lines, k.1);
      LineQtyDistinct(lines, k.1);
      if k.0 == store {
        if i :| 0 <= i < |lines| && lines[i].product == k.1 {
          assert Covered(stock, store, lines[i]);
        }
      }
    }
  }

  /** Without distinct products the check passes a sale the stock cannot
      cover: 3 in stock, two lines of 2 each, and the row ends at -1. */
  lemma DuplicateSaleLinesGoNegative()
    ensures var stock := map[(1, 5) := 3];
      var lines := [Line(5, 2, 100, 60), Line(5, 2, 100, 60)];
      Shortage(stock, 1, lines).None? && Qty(DebitAll(stock, 1, lines), (1, 5)) == -1
  {
    var stock := map[(1, 5) := 3];
    var lines := [Line(5, 2, 100, 60), Line(5, 2, 100, 60)];
    assert Covered(stock, 1, lines[0]) && Covered(stock, 1, lines[1]);
    assert lines[..1][..0] == [];
    assert lines[..|lines| - 1] == [lines[0]];
  }

  /** A return's stock writes: one upsert of `quantity + q` per line, in order. */
  function CreditAll(stock: Stock, store: int, lines: seq<Line>): (r: Stock)
    ensures stock.Keys <= r.Keys
  {
    if lines == [] then stock
    else
      var l := lines[|lines| - 1];
      Upsert(CreditAll(stock, store, lines[..|lines| - 1]), (store, l.product), l.quantity)
  }

  /** Each row of the store rises by the quantity its product is returned in,
      rows of other stores do not change, and positive credits keep the stock
      non-negative. */
  lemma {:induction false} CreditAllQty(stock: Stock, store: int, lines: seq<Line>, p: int)
    ensures Qty(CreditAll(stock, store, lines), (store, p)) == Qty(stock, (store, p)) + LineQty(lines, p)
    ensures forall k: (int, int) :: k.0 != store ==> Qty(CreditAll(stock, store, lines), k) == Qty(stock, k)
    ensures NonNegative(stock) && (forall i :: 0 <= i < |lines| ==> lines[i].quantity > 0) ==>
      NonNegative(CreditAll(stock, store, lines))
  {
    if lines != [] {
      var n := |lines| - 1;
      assert forall i :: 0 <= i < n ==> lines[..n][i] == lines[i];
      CreditAllQty(stock, store, lines[..n], p);
    }
  }

  // ---------------------------------------------------------------- notifications

  /** One notice per sold line whose post-sale store stock is below the threshold. */
  function LowStockAlerts(after: Stock, store: int, lines: seq<Line>, threshold: int): (ns: seq<Notification>)
    ensures |ns| <= |lines|
  {
    if lines == [] then []
    else
      var p := lines[|lines| - 1].product;
      LowStockAlerts(after, store, lines[..|lines| - 1], threshold) +
        (if Qty(after, (store, p)) < threshold then [Notification(p, store, Qty(after, (store, p)), threshold)] else [])
  }

  /** A notice is raised exactly for a sold line whose post-sale stock is below
      the threshold, and it records that stock, that store and that threshold. */
  lemma {:induction false} LowStockAlertsSpec(after: Stock, store: int, lines: seq<Line>, threshold: int, n: Notification)
    ensures n in LowStockAlerts(after, store, lines, threshold) <==>
      (exists i :: 0 <= i < |lines| && n.product == lines[i].product) &&
      n == Notification(n.product, store, Qty(after, (store, n.product)), threshold) && n.quantity < threshold
  {
    if lines != [] {
      var m := |lines| - 1;
      assert forall i :: 0 <= i < m ==> lines[..m][i] == lines[i];
      LowStockAlertsSpec(after, store, lines[..m], threshold, n);
    }
  }

  // ---------------------------------------------------------------- returns

  /** `sold[pid] = quantity` for each row of the original sale: the last row of a product wins. */
  function SoldMap(items: seq<Item>): map<int, int>
  {
    if items == [] then map[]
    else SoldMap(items[..|items| - 1])[items[|items| - 1].product := items[|items| - 1].quantity]
  }

  /** A product is in the map exactly when a row names it, and its entry is
      the quantity of the last such row. */
  lemma {:induction false} SoldMapSpec(items: seq<Item>, p: int)
    ensures p in SoldMap(items) <==> exists i :: 0 <= i < |items| && items[i].product == p
    ensures p in SoldMap(items) ==>
      exists i :: 0 <= i < |items| && items[i].product == p &&
        SoldMap(items)[p] == items[i].quantity && forall j :: i < j < |items| ==> items[j].product != p
  {
    if items != [] {
      var n := |items| - 1;
      assert forall i :: 0 <= i < n ==> items[..n][i] == items[i];
      SoldMapSpec(items[..n], p);
      if p in SoldMap(items) && items[n].product != p {
        var i :| 0 <= i < n && items[..n][i].product == p &&
          SoldMap(items[..n])[p] == items[..n][i].quantity && forall j :: i < j < n ==> items[..n][j].product != p;
        assert items[i].product == p && SoldMap(items)[p] == items[i].quantity;
      }
    }
  }

  /** The sold quantity of a product (absent = 0, as `sold.get(pid, 0)`). */
  function SoldQty(items: seq<Item>, p: int): int
  {
    var m := SoldMap(items);
    if p in m then m[p] else 0
  }

  /** The total quantity of product `p` over item rows. */
  function QtyOf(items: seq<Item>, p: int): int
  {
    if items == [] then 0
    else QtyOf(items[..|items| - 1], p) + (if items[|items| - 1].product == p then items[|items| - 1].quantity else 0)
  }

  /** A sale that names a product twice is bounded by its last row only: rows
      of 2 and 3 units allow at most 3 back, not the 5 sold. */
  lemma SoldMapLastRowWins()
    ensures var items := [Item(5, 2, 100, 60, 200, 120, 80), Item(5, 3, 100, 60, 300, 180, 120)];
      SoldQty(items, 5) == 3 && QtyOf(items, 5) == 5
  {
    var items := [Item(5, 2, 100, 60, 200, 120, 80), Item(5, 3, 100, 60, 300, 180, 120)];
    assert items[..1][..0] == [];
    assert items[..|items| - 1] == [items[0]];
  }

  /** The rows keep each line's product and quantity. */
  lemma {:induction false} QtyOfItems(lines: seq<Line>, p: int)
    ensures QtyOf(Items(lines), p) == LineQty(lines, p)
  {
    if lines != [] {
      var n := |lines| - 1;
      assert Items(lines)[..n] == Items(lines[..n]);
      QtyOfItems(lines[..n], p);
    }
  }

  /** The quantity of product `p` already returned against operation `original`:
      the sum over every return operation that refers to it. */
  function ReturnedQty(ops: seq<Operation>, original: int, p: int): int
  {
    if ops == [] then 0
    else
      var op := ops[|ops| - 1];
      ReturnedQty(ops[..|ops| - 1], original, p) +
        (if op.kind == Return && op.original == Some(original) then QtyOf(op.items, p) else 0)
  }

  /** `max(0, sold - already)`. */
  function Remaining(sold: int, already: int): (r: int)
    ensures r >= 0 && r >= sold - already
    ensures r == 0 || r == sold - already
  {
    if sold - already > 0 then sold - already else 0
  }

  /** A considered return line may be taken back: its product is in the sale
      and its quantity is within what remains. */
  predicate ReturnAllowed(r: RequestLine, sold: map<int, int>, ops: seq<Operation>, original: int)
    requires r.product.Some?
  {
    var p := r.product.value;
    p in sold && r.quantity <= Remaining(if p in sold then sold[p] else 0, ReturnedQty(ops, original, p))
  }

  /** The validation loop of a return: `None` at the first considered line that
      is not allowed, otherwise the considered lines in order. */
  function ReturnWanted(req: seq<RequestLine>, sold: map<int, int>, ops: seq<Operation>, original: int): Option<seq<Want>>
  {
    if req == [] then Some([])
    else
      var r := req[|req| - 1];
      match ReturnWanted(req[..|req| - 1], sold, ops, original)
      case None => None
      case Some(ws) =>
        if !Considered(r) then Some(ws)
        else if !ReturnAllowed(r, sold, ops, original) then None
        else Some(ws + [Want(r.product.value, r.quantity)])
  }

  /** A return request naming each product at most once among its considered lines. */
  predicate DistinctRequest(req: seq<RequestLine>) {
    forall i, j :: 0 <= i < j < |req| && Considered(req[i]) && Considered(req[j]) ==> req[i].product != req[j].product
  }

  predicate DistinctWants(ws: seq<Want>) {
    forall i, j :: 0 <= i < j < |ws| ==> ws[i].product != ws[j].product
  }

  /** The validation rejects exactly when some considered line is not allowed. */
  lemma {:induction false} ReturnWantedRejects(req: seq<RequestLine>, sold: map<int, int>, ops: seq<Operation>, original: int)
    ensures ReturnWanted(req, sold, ops, original).None? <==>
      exists i :: 0 <= i < |req| && Considered(req[i]) && !ReturnAllowed(req[i], sold, ops, original)
  {
    if req != [] {
      var n := |req| - 1;
      var pre := req[..n];
      assert forall i :: 0 <= i < n ==> pre[i] == req[i];
      ReturnWantedRejects(pre, sold, ops, original);
    }
  }

  /** Otherwise every wanted line names a product of the sale with a positive
      quantity within its remaining amount, and comes from a considered line. */
  lemma {:induction false} ReturnWantedSpec(req: seq<RequestLine>, sold: map<int, int>, ops: seq<Operation>, original: int)
    requires ReturnWanted(req, sold, ops, original).Some?
    ensures var ws := ReturnWanted(req, sold, ops, original).value;
      forall j :: 0 <= j < |ws| ==>
        ws[j].product in sold && 0 < ws[j].quantity <=
        Remaining(sold[ws[j].product], ReturnedQty(ops, original, ws[j].product)) &&
        Requested(req, ws[j].product)
  {
    if req != [] {
      var n := |req| - 1;
      var pre := req[..n];
      ReturnWantedSpec(pre, sold, ops, original);
      var r := req[n];
      var ws := ReturnWanted(pre, sold, ops, original).value;
      forall j | 0 <= j < |ws| ensures Requested(req, ws[j].product) {
        RequestedPrefix(req, n, ws[j].product);
      }
      if Considered(r) && ReturnAllowed(r, sold, ops, original) {
        var ws' := ws + [Want(r.product.value, r.quantity)];
        assert Requested(req, r.product.value) by {
          assert Considered(req[n]) && req[n].product.value == r.product.value;
        }
        assert ws'[|ws|] == Want(r.product.value, r.quantity);
      }
    }
  }

  /** A request with distinct products gives distinct wanted lines. */
  lemma {:induction false} ReturnWantedDistinct(req: seq<RequestLine>, sold: map<int, int>, ops: seq<Operation>, original: int)
    requires ReturnWanted(req, sold, ops, original).Some?
    requires DistinctRequest(req)
    ensures DistinctWants(ReturnWanted(req, sold, ops, original).value)
  {
    if req != [] {
      var n := |req| - 1;
      var pre := req[..n];
      assert DistinctRequest(pre);
      ReturnWantedDistinct(pre, sold, ops, original);
      ReturnWantedSpec(pre, sold, ops, original);
      var r := req[n];
      var ws := ReturnWanted(pre, sold, ops, original).value;
      if Considered(r) && ReturnAllowed(r, sold, ops, original) {
        forall j | 0 <= j < |ws| ensures ws[j].product != r.product.value {
          assert Requested(pre, ws[j].product);
          var i :| 0 <= i < n && Considered(pre[i]) && pre[i].product.value == ws[j].product;
          assert pre[i] == req[i];
          assert req[i].product != req[n].product;
        }
      }
    }
  }

  /** Some considered line of the request names product `p`. */
  predicate Requested(req: seq<RequestLine>, p: int) {
    exists i :: 0 <= i < |req| && Considered(req[i]) && req[i].product.value == p
  }

  lemma RequestedPrefix(req: seq<RequestLine>, n: nat, p: int)
    requires n <= |req| && Requested(req[..n], p)
    ensures Requested(req, p)
  {
    var i :| 0 <= i < n && Considered(req[..n][i]) && req[..n][i].product.value == p;
    assert req[..n][i] == req[i];
  }

  /** The total wanted quantity of product `p`. */
  function WantQty(ws: seq<Want>, p: int): int
  {
    if ws == [] then 0
    else WantQty(ws[..|ws| - 1], p) + (if ws[|ws| - 1].product == p then ws[|ws| - 1].quantity else 0)
  }

  lemma {:induction false} WantQtyDistinct(ws: seq<Want>, p: int)
    requires DistinctWants(ws)
    ensures (forall i :: 0 <= i < |ws| ==> ws[i].product != p) ==> WantQty(ws, p) == 0
    ensures forall i :: 0 <= i < |ws| && ws[i].product == p ==> WantQty(ws, p) == ws[i].quantity
  {
    if ws != [] {
      var n := |ws| - 1;
      assert forall i :: 0 <= i < n ==> ws[..n][i] == ws[i];
      WantQtyDistinct(ws[..n], p);
    }
  }

  /** The pricing loop of a return: wanted lines without a product row are skipped. */
  function PricedLines(ws: seq<Want>, products: map<int, Product>): (lines: seq<Line>)
    ensures |lines| <= |ws|
    ensures forall i :: 0 <= i < |lines| ==>
      lines[i].product in products && lines[i] == PriceLine(lines[i].product, lines[i].quantity, products)
  {
    if ws == [] then []
    else
      var w := ws[|ws| - 1];
      PricedLines(ws[..|ws| - 1], products) +
        (if w.product in products then [PriceLine(w.product, w.quantity, products)] else [])
  }

  /** Pricing never adds quantity. */
  lemma {:induction false} PricedLinesQty(ws: seq<Want>, products: map<int, Product>, p: int)
    requires forall i :: 0 <= i < |ws| ==> ws[i].quantity > 0
    ensures 0 <= LineQty(PricedLines(ws, products), p) <= WantQty(ws, p)
  {
    if ws != [] {
      var n := |ws| - 1;
      assert forall i :: 0 <= i < n ==> ws[..n][i] == ws[i];
      PricedLinesQty(ws[..n], products, p);
      var pre := PricedLines(ws[..n], products);
      var all := PricedLines(ws, products);
      if ws[n].product in products {
        assert all == pre + [PriceLine(ws[n].product, ws[n].quantity, products)];
        assert all[..|all| - 1] == pre;
      } else {
        assert all == pre;
      }
    }
  }

  /** Priced lines keep the wanted quantities, so they stay positive. */
  lemma {:induction false} PricedLinesPositive(ws: seq<Want>, products: map<int, Product>)
    requires forall i :: 0 <= i < |ws| ==> ws[i].quantity > 0
    ensures forall i :: 0 <= i < |PricedLines(ws, products)| ==> PricedLines(ws, products)[i].quantity > 0
  {
    if ws != [] {
      var n := |ws| - 1;
      assert forall i :: 0 <= i < n ==> ws[..n][i] == ws[i];
      PricedLinesPositive(ws[..n], products);
      var pre := PricedLines(ws[..n], products);
      if ws[n].product in products {
        assert PricedLines(ws, products) == pre + [PriceLine(ws[n].product, ws[n].quantity, products)];
      } else {
        assert PricedLines(ws, products) == pre;
      }
    }
  }

  /** A validated return of a request with distinct products returns, per
      product, at most what remains of it. */
  lemma ReturnWithinRemaining(req: seq<RequestLine>, saleItems: seq<Item>, ops: seq<Operation>, original: int,
                              products: map<int, Product>, p: int)
    requires ReturnWanted(req, SoldMap(saleItems), ops, original).Some?
    requires DistinctRequest(req)
    ensures var lines := PricedLines(ReturnWanted(req, SoldMap(saleItems), ops, original).value, products);
      0 <= QtyOf(Items(lines), p) <= Remaining(SoldQty(saleItems, p), ReturnedQty(ops, original, p))
  {
    var sold := SoldMap(saleItems);
    var ws := ReturnWanted(req, sold, ops, original).value;
    ReturnWantedSpec(req, sold, ops, original);
    ReturnWantedDistinct(req, sold, ops, original);
    PricedLinesQty(ws, products, p);
    QtyOfItems(PricedLines(ws, products), p);
    WantQtyDistinct(ws, p);
  }

  // ---------------------------------------------------------------- the returns invariant

  /** Operation `j` is a sale that refers to nothing, or a return that refers
      to an earlier sale (ids are positions + 1). */
  predicate PointsBack(ops: seq<Operation>, j: int)
    requires 0 <= j < |ops|
  {
    (ops[j].kind == Sale ==> ops[j].original.None?) &&
    (ops[j].kind == Return ==> ops[j].original.Some? && 1 <= ops[j].original.value <= j &&
                               ops[ops[j].original.value - 1].kind == Sale)
  }

  predicate ReturnsPointBack(ops: seq<Operation>) {
    forall j :: 0 <= j < |ops| ==> PointsBack(ops, j)
  }

  /** For every sale and product, what has been returned against it is at most what it sold. */
  ghost predicate ReturnsWithinSales(ops: seq<Operation>) {
    forall id, p :: 1 <= id <= |ops| && ops[id - 1].kind == Sale ==>
      ReturnedQty(ops, id, p) <= SoldQty(ops[id - 1].items, p)
  }

  /** Every return refers to an id no later than its own position. */
  predicate RefersEarlier(ops: seq<Operation>) {
    forall j :: 0 <= j < |ops| && ops[j].kind == Return && ops[j].original.Some? ==> ops[j].original.value <= j
  }

  /** No operation refers to an id beyond the table's end. */
  lemma {:induction false} ReturnedQtyBeyond(ops: seq<Operation>, id: int, p: int)
    requires RefersEarlier(ops) && id > |ops|
    ensures ReturnedQty(ops, id, p) == 0
  {
    if ops != [] {
      var n := |ops| - 1;
      assert forall j :: 0 <= j < n ==> ops[..n][j] == ops[j];
      ReturnedQtyBeyond(ops[..n], id, p);
    }
  }

  /** Appending gives the new operation's contribution to what was returned. */
  lemma ReturnedQtyAppend(ops: seq<Operation>, op: Operation, id: int, p: int)
    ensures ReturnedQty(ops + [op], id, p) ==
      ReturnedQty(ops, id, p) + (if op.kind == Return && op.original == Some(id) then QtyOf(op.items, p) else 0)
  {
    assert (ops + [op])[..|ops|] == ops;
  }

  /** Appending an operation that refers to an earlier sale, or to nothing if
      it is a sale, keeps `ReturnsPointBack`. */
  lemma AppendPointsBack(ops: seq<Operation>, op: Operation)
    requires ReturnsPointBack(ops)
    requires op.kind == Sale ==> op.original.None?
    requires op.kind == Return ==> op.original.Some? && 1 <= op.original.value <= |ops| &&
                                   ops[op.original.value - 1].kind == Sale
    ensures ReturnsPointBack(ops + [op])
  {
    var ops' := ops + [op];
    forall j | 0 <= j < |ops'| ensures PointsBack(ops', j) {
      if j < |ops| {
        assert PointsBack(ops, j);
        assert ops'[j] == ops[j];
        if ops[j].kind == Return {
          assert ops'[ops[j].original.value - 1] == ops[ops[j].original.value - 1];
        }
      } else if op.kind == Return {
        assert ops'[op.original.value - 1] == ops[op.original.value - 1];
      }
    }
  }

  lemma PointsBackRefersEarlier(ops: seq<Operation>)
    requires ReturnsPointBack(ops)
    ensures RefersEarlier(ops)
  {
    forall j | 0 <= j < |ops| && ops[j].kind == Return && ops[j].original.Some?
      ensures ops[j].original.value <= j
    {
      assert PointsBack(ops, j);
    }
  }

  /** Appending a sale keeps both invariants. */
  lemma AppendSaleKeeps(ops: seq<Operation>, sale: Operation)
    requires ReturnsPointBack(ops) && ReturnsWithinSales(ops)
    requires sale.kind == Sale && sale.original.None?
    requires forall i :: 0 <= i < |sale.items| ==> sale.items[i].quantity > 0
    ensures ReturnsPointBack(ops + [sale]) && ReturnsWithinSales(ops + [sale])
  {
    var ops' := ops + [sale];
    AppendPointsBack(ops, sale);
    forall id, p | 1 <= id <= |ops'| && ops'[id - 1].kind == Sale
      ensures ReturnedQty(ops', id, p) <= SoldQty(ops'[id - 1].items, p)
    {
      ReturnedQtyAppend(ops, sale, id, p);
      if id == |ops'| {
        PointsBackRefersEarlier(ops);
        ReturnedQtyBeyond(ops, id, p);
        SoldQtyNonNegative(sale.items, p);
      } else {
        assert ops'[id - 1] == ops[id - 1];
      }
    }
  }

  /** A sale whose rows have non-negative quantities sells a non-negative amount. */
  lemma SoldQtyNonNegative(items: seq<Item>, p: int)
    ensures (forall i :: 0 <= i < |items| ==> items[i].quantity >= 0) ==> SoldQty(items, p) >= 0
  {
    SoldMapSpec(items, p);
  }

  /** Appending a return against sale `original` that returns, per product, at
      most what remains keeps both invariants. */
  lemma AppendReturnKeeps(ops: seq<Operation>, ret: Operation, original: int)
    requires ReturnsPointBack(ops) && ReturnsWithinSales(ops)
    requires 1 <= original <= |ops| && ops[original - 1].kind == Sale
    requires ret.kind == Return && ret.original == Some(original)
    requires forall p :: QtyOf(ret.items, p) <= Remaining(SoldQty(ops[original - 1].items, p), ReturnedQty(ops, original, p))
    ensures ReturnsPointBack(ops + [ret]) && ReturnsWithinSales(ops + [ret])
  {
    var ops' := ops + [ret];
    AppendPointsBack(ops, ret);
    forall id, p | 1 <= id <= |ops'| && ops'[id - 1].kind == Sale
      ensures ReturnedQty(ops', id, p) <= SoldQty(ops'[id - 1].items, p)
    {
      ReturnedQtyAppend(ops, ret, id, p);
      assert id <= |ops| && ops'[id - 1] == ops[id - 1];
      if id == original {
        var sold := SoldQty(ops[id - 1].items, p);
        var already := ReturnedQty(ops, id, p);
        assert already <= sold;
        assert QtyOf(ret.items, p) <= Remaining(sold, already);
      }
    }
  }

  /** Without distinct return lines the bound fails: a line that passes on its
      own passes twice, since each copy is compared with the same remainder.
      With the whole remainder on each line, twice the remainder is returned. */
  lemma DuplicateReturnLinesPass(sold: map<int, int>, ops: seq<Operation>, original: int, p: int, q: int)
    requires p != 0 && q > 0 && p in sold
    requires q <= Remaining(sold[p], ReturnedQty(ops, original, p))
    ensures var req := [RequestLine(Some(p), q), RequestLine(Some(p), q)];
      ReturnWanted(req, sold, ops, original) == Some([Want(p, q), Want(p, q)]) &&
      WantQty([Want(p, q), Want(p, q)], p) == 2 * q
  {
    var l := RequestLine(Some(p), q);
    var w := Want(p, q);
    var none: seq<RequestLine> := [];
    var nothing: seq<Want> := [];
    assert Considered(l) && ReturnAllowed(l, sold, ops, original);
    ReturnWantedAllowed(none, l, sold, ops, original, nothing);
    assert none + [l] == [l] && nothing + [w] == [w];
    ReturnWantedAllowed([l], l, sold, ops, original, [w]);
    assert [l] + [l] == [l, l] && [w] + [w] == [w, w];
    WantQtyPair(w);
  }

  /** Two copies of a line add up to twice its quantity. */
  lemma WantQtyPair(w: Want)
    ensures WantQty([w, w], w.product) == 2 * w.quantity
  {
    var ws := [w, w];
    assert ws[..|ws| - 1] == [w] && [w][..|[w]| - 1] == [];
    assert WantQty([w], w.product) == w.quantity;
  }

  /** A considered line that is allowed extends the accepted lines by itself. */
  lemma ReturnWantedAllowed(req: seq<RequestLine>, r: RequestLine, sold: map<int, int>, ops: seq<Operation>,
                            original: int, ws: seq<Want>)
    requires ReturnWanted(req, sold, ops, original) == Some(ws)
    requires Considered(r) && ReturnAllowed(r, sold, ops, original)
    ensures ReturnWanted(req + [r], sold, ops, original) == Some(ws + [Want(r.product.value, r.quantity)])
  {
    var rr := req + [r];
    assert rr[..|rr| - 1] == req && rr[|rr| - 1] == r;
  }

}
