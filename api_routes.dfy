/**
  The seller and admin handlers of the shop's JSON API that change the stock,
  the shifts, the operations and the notifications: the shift controls, a sale,
  the view of a sale's rows for returning, a return, a receipt and a
  distribution between warehouses and stores, plus the server's phone rule.

  Each handler is a method over the database object. Its guards come first; the
  writes of one `with db.cursor()` block are computed on locals and assigned
  together, since the block commits all of them or none. The elapsed seconds of
  the caller's latest open shift and the current day are parameters.
 */
module ApiRoutes {
  import opened Common
  import opened Tables
  import opened Shifts
  import opened Sales
  import opened PhoneMask
  import PyStr

  /** The calling seller as the session states it; the store may be NULL. */
  datatype Seller = Seller(id: int, store: Option<int>)

  /** Every operation's stored profit is its revenue minus its cost. */
  predicate ProfitsConsistent(ops: seq<Operation>) {
    forall i :: 0 <= i < |ops| ==> ops[i].profit == ops[i].revenue - ops[i].cost
  }

  /** The invariant the handlers keep. */
  ghost predicate Consistent(db: Database)
    reads db
  {
    NonNegative(db.storeStock) && NonNegative(db.warehouseStock) &&
    OneOpenPerPair(db.shifts) &&
    ReturnsPointBack(db.operations) && ReturnsWithinSales(db.operations) &&
    ProfitsConsistent(db.operations)
  }

  // ---------------------------------------------------------------- shifts

  datatype CurrentShift = NoShift | ClosedExpired(shiftId: int) | Active(shiftId: int, hours: int, minutes: int)

  /** `current_shift`: the caller's latest open shift with its work time, or
      none; an expired one is closed and reported as closed. */
  method CurrentShiftOf(db: Database, user: Seller, elapsed: int, config: Config) returns (r: CurrentShift)
    modifies db
    ensures db.storeStock == old(db.storeStock) && db.warehouseStock == old(db.warehouseStock)
    ensures db.operations == old(db.operations) && db.notifications == old(db.notifications)
    ensures db.products == old(db.products) && db.employees == old(db.employees)
    ensures var sh := LatestOpen(old(db.shifts), user.id, user.store);
      if sh.None? then r == NoShift && db.shifts == old(db.shifts)
      else if Expired(elapsed, config) then r == ClosedExpired(sh.value + 1) && db.shifts == CloseAt(old(db.shifts), sh.value)
      else r == Active(sh.value + 1, WorkTime(elapsed).0, WorkTime(elapsed).1) && db.shifts == old(db.shifts)
    ensures old(Consistent(db)) ==> Consistent(db)
  {
    var sh := LatestOpen(db.shifts, user.id, user.store);
    if sh.None? {
      return NoShift;
    }
    if elapsed >= ShiftDurationSeconds(config) {
      CloseKeepsOneOpen(db.shifts, sh.value);
      db.shifts := CloseAt(db.shifts, sh.value);
      return ClosedExpired(sh.value + 1);
    }
    var t := WorkTime(elapsed);
    r := Active(sh.value + 1, t.0, t.1);
  }

  datatype OpenShift = AlreadyOpen(shiftId: int) | Opened(shiftId: int)

  /** `open_shift`: the caller's open shift if there is one, otherwise a new
      open shift. */
  method OpenShiftFor(db: Database, user: Seller) returns (r: OpenShift)
    modifies db
    ensures db.storeStock == old(db.storeStock) && db.warehouseStock == old(db.warehouseStock)
    ensures db.operations == old(db.operations) && db.notifications == old(db.notifications)
    ensures db.products == old(db.products) && db.employees == old(db.employees)
    ensures db.shifts == OpenIfMissing(old(db.shifts), user.id, user.store)
    ensures var sh := LatestOpen(old(db.shifts), user.id, user.store);
      if sh.Some? then r == AlreadyOpen(sh.value + 1) else r == Opened(|old(db.shifts)| + 1)
    ensures old(Consistent(db)) ==> Consistent(db)
  {
    OpenIfMissingKeepsOneOpen(db.shifts, user.id, user.store);
    var existing := LatestOpen(db.shifts, user.id, user.store);
    if existing.Some? {
      return AlreadyOpen(existing.value + 1);
    }
    db.shifts := db.shifts + [Shift(user.id, user.store, true)];
    r := Opened(|db.shifts|);
  }

  /** The shift `shiftId` is open and belongs to the caller (plain equality of
      the store ids, as the handler compares them in Python). */
  predicate Closable(shifts: seq<Shift>, user: Seller, shiftId: int) {
    1 <= shiftId <= |shifts| && shifts[shiftId - 1].open &&
    shifts[shiftId - 1].employee == user.id && shifts[shiftId - 1].store == user.store
  }

  /** `close_shift`: closes the caller's open shift `shiftId`, and changes
      nothing for any other id. */
  method CloseShift(db: Database, user: Seller, shiftId: int) returns (ok: bool)
    modifies db
    ensures db.storeStock == old(db.storeStock) && db.warehouseStock == old(db.warehouseStock)
    ensures db.operations == old(db.operations) && db.notifications == old(db.notifications)
    ensures db.products == old(db.products) && db.employees == old(db.employees)
    ensures ok <==> Closable(old(db.shifts), user, shiftId)
    ensures ok ==> db.shifts == CloseAt(old(db.shifts), shiftId - 1)
    ensures !ok ==> db.shifts == old(db.shifts)
    ensures old(Consistent(db)) ==> Consistent(db)
  {
    if !Closable(db.shifts, user, shiftId) {
      return false;
    }
    CloseKeepsOneOpen(db.shifts, shiftId - 1);
    db.shifts := CloseAt(db.shifts, shiftId - 1);
    ok := true;
  }

  // ---------------------------------------------------------------- the loops

  /** The pricing loop of a sale. */
  method PriceSale(req: seq<RequestLine>, products: map<int, Product>) returns (lines: seq<Line>, totals: Money)
    ensures lines == SaleLines(req, products) && totals == Totals(lines)
  {
    lines := [];
    totals := Money(0, 0, 0);
    var i := 0;
    while i < |req|
      invariant 0 <= i <= |req|
      invariant lines == SaleLines(req[..i], products) && totals == Totals(lines)
    {
      assert req[..i + 1][..i] == req[..i];
      var it := req[i];
      if Truthy(it.product) && it.quantity > 0 && it.product.value in products {
        var line := PriceLine(it.product.value, it.quantity, products);
        assert (lines + [line])[..|lines|] == lines;
        lines := lines + [line];
        totals := totals.Plus(LineMoney(line));
      }
      i := i + 1;
    }
    assert req[..|req|] == req;
  }

  /** The stock check of a sale: the first line the store cannot cover. */
  method FindShortage(stock: Stock, store: int, lines: seq<Line>) returns (r: Option<int>)
    ensures r == Shortage(stock, store, lines)
  {
    var i := 0;
    while i < |lines|
      invariant 0 <= i <= |lines|
      invariant forall j :: 0 <= j < i ==> Covered(stock, store, lines[j])
    {
      var avail := Qty(stock, (store, lines[i].product));
      if avail < lines[i].quantity {
        return Some(avail);
      }
      i := i + 1;
    }
    r := None;
  }

  /** The write loop of a sale: one row and one stock decrement per line. */
  method WriteSaleLines(stock: Stock, store: int, lines: seq<Line>) returns (items: seq<Item>, after: Stock)
    ensures items == Items(lines) && after == DebitAll(stock, store, lines)
  {
    items := [];
    after := stock;
    var i := 0;
    while i < |lines|
      invariant 0 <= i <= |lines|
      invariant items == Items(lines[..i]) && after == DebitAll(stock, store, lines[..i])
    {
      assert lines[..i + 1][..i] == lines[..i];
      items := items + [ItemAsWritten(lines[i])];
      after := Decrement(after, (store, lines[i].product), lines[i].quantity);
      i := i + 1;
    }
    assert lines[..|lines|] == lines;
  }

  /** The notification loop of a sale, reading the post-sale stock. */
  method CollectAlerts(after: Stock, store: int, lines: seq<Line>, threshold: int) returns (ns: seq<Notification>)
    ensures ns == LowStockAlerts(after, store, lines, threshold)
  {
    ns := [];
    var i := 0;
    while i < |lines|
      invariant 0 <= i <= |lines|
      invariant ns == LowStockAlerts(after, store, lines[..i], threshold)
    {
      assert lines[..i + 1][..i] == lines[..i];
      var q := Qty(after, (store, lines[i].product));
      if q < threshold {
        ns := ns + [Notification(lines[i].product, store, q, threshold)];
      }
      i := i + 1;
    }
    assert lines[..|lines|] == lines;
  }

  /** The `sold` map of a return. */
  method SoldOf(items: seq<Item>) returns (sold: map<int, int>)
    ensures sold == SoldMap(items)
  {
    sold := map[];
    var i := 0;
    while i < |items|
      invariant 0 <= i <= |items|
      invariant sold == SoldMap(items[..i])
    {
      assert items[..i + 1][..i] == items[..i];
      sold := sold[items[i].product := items[i].quantity];
      i := i + 1;
    }
    assert items[..|items|] == items;
  }

  /** The validation loop of a return. */
  method ValidateReturn(req: seq<RequestLine>, sold: map<int, int>, ops: seq<Operation>, original: int)
      returns (r: Option<seq<Want>>)
    ensures r == ReturnWanted(req, sold, ops, original)
  {
    var ws: seq<Want> := [];
    var i := 0;
    while i < |req|
      invariant 0 <= i <= |req|
      invariant ReturnWanted(req[..i], sold, ops, original) == Some(ws)
    {
      assert req[..i + 1][..i] == req[..i];
      var it := req[i];
      if Truthy(it.product) && it.quantity > 0 {
        var pid := it.product.value;
        var soldQty := if pid in sold then sold[pid] else 0;
        var remaining := Remaining(soldQty, ReturnedQty(ops, original, pid));
        if pid !in sold || it.quantity > remaining {
          ReturnWantedStaysRejected(req, i + 1, sold, ops, original);
          return None;
        }
        ws := ws + [Want(pid, it.quantity)];
      }
      i := i + 1;
    }
    assert req[..|req|] == req;
    r := Some(ws);
  }

  /** Once a prefix is rejected the whole request is. */
  lemma {:induction false} ReturnWantedStaysRejected(req: seq<RequestLine>, k: nat, sold: map<int, int>, ops: seq<Operation>, original: int)
    requires k <= |req| && ReturnWanted(req[..k], sold, ops, original).None?
    ensures ReturnWanted(req, sold, ops, original).None?
    decreases |req| - k
  {
    if k < |req| {
      assert req[..k + 1][..k] == req[..k];
      ReturnWantedStaysRejected(req, k + 1, sold, ops, original);
    } else {
      assert req[..k] == req;
    }
  }

  /** The pricing loop of a return. */
  method PriceReturn(ws: seq<Want>, products: map<int, Product>) returns (lines: seq<Line>, totals: Money)
    ensures lines == PricedLines(ws, products) && totals == Totals(lines)
  {
    lines := [];
    totals := Money(0, 0, 0);
    var i := 0;
    while i < |ws|
      invariant 0 <= i <= |ws|
      invariant lines == PricedLines(ws[..i], products) && totals == Totals(lines)
    {
      assert ws[..i + 1][..i] == ws[..i];
      if ws[i].product in products {
        var line := PriceLine(ws[i].product, ws[i].quantity, products);
        assert (lines + [line])[..|lines|] == lines;
        lines := lines + [line];
        totals := totals.Plus(LineMoney(line));
      }
      i := i + 1;
    }
    assert ws[..|ws|] == ws;
  }

  /** The write loop of a return: one row and one stock upsert per line. */
  method WriteReturnLines(stock: Stock, store: int, lines: seq<Line>) returns (items: seq<Item>, after: Stock)
    ensures items == Items(lines) && after == CreditAll(stock, store, lines)
  {
    items := [];
    after := stock;
    var i := 0;
    while i < |lines|
      invariant 0 <= i <= |lines|
      invariant items == Items(lines[..i]) && after == CreditAll(stock, store, lines[..i])
    {
      assert lines[..i + 1][..i] == lines[..i];
      items := items + [ItemAsWritten(lines[i])];
      after := Upsert(after, (store, lines[i].product), lines[i].quantity);
      i := i + 1;
    }
    assert lines[..|lines|] == lines;
  }

  // ---------------------------------------------------------------- sales

  datatype SaleError = EmptyCheck | NoOpenShift | ShiftExpired | OutOfStock(available: int)

  datatype SaleOutcome = SaleRecorded(checkId: int, total: int) | SaleRejected(error: SaleError)

  /** The operation row of a sale. */
  function SaleOperation(shiftId: int, user: Seller, store: int, today: int, lines: seq<Line>): (op: Operation)
    ensures op.kind == Sale && op.original.None? && op.items == Items(lines)
    ensures Money(op.revenue, op.cost, op.profit) == Totals(lines)
  {
    var t := Totals(lines);
    Operation(Sale, shiftId, user.id, store, today, t.revenue, t.cost, t.profit, None, Items(lines))
  }

  /** `create_sale`. An empty request, a caller without an open shift, a
      request with no kept line and a line the store stock does not cover are
      rejected with nothing written; an expired shift is closed and the sale
      rejected. Otherwise the sale, its rows, the stock decrements and the
      low-stock notices are written together. */
  method CreateSale(db: Database, user: Seller, req: seq<RequestLine>, elapsed: int, config: Config, today: int)
      returns (r: SaleOutcome)
    modifies db
    ensures db.warehouseStock == old(db.warehouseStock) && db.products == old(db.products) && db.employees == old(db.employees)
    ensures var sh := LatestOpen(old(db.shifts), user.id, user.store);
      var lines := SaleLines(req, old(db.products));
      if req == [] || sh.None? then
        r == SaleRejected(if req == [] then EmptyCheck else NoOpenShift) &&
        db.shifts == old(db.shifts) && db.storeStock == old(db.storeStock) &&
        db.operations == old(db.operations) && db.notifications == old(db.notifications)
      else if Expired(elapsed, config) then
        r == SaleRejected(ShiftExpired) && db.shifts == CloseAt(old(db.shifts), sh.value) &&
        db.storeStock == old(db.storeStock) && db.operations == old(db.operations) &&
        db.notifications == old(db.notifications)
      else if lines == [] || Shortage(old(db.storeStock), user.store.value, lines).Some? then
        r == SaleRejected(if lines == [] then EmptyCheck else OutOfStock(Shortage(old(db.storeStock), user.store.value, lines).value)) &&
        db.shifts == old(db.shifts) && db.storeStock == old(db.storeStock) &&
        db.operations == old(db.operations) && db.notifications == old(db.notifications)
      else
        var after := DebitAll(old(db.storeStock), user.store.value, lines);
        r == SaleRecorded(|old(db.operations)| + 1, Totals(lines).revenue) &&
        db.shifts == old(db.shifts) && db.storeStock == after &&
        db.operations == old(db.operations) + [SaleOperation(sh.value + 1, user, user.store.value, today, lines)] &&
        db.notifications == old(db.notifications) + LowStockAlerts(after, user.store.value, lines, config.lowStockThreshold)
    ensures old(Consistent(db)) && DistinctLines(SaleLines(req, old(db.products))) ==> Consistent(db)
  {
    if req == [] {
      return SaleRejected(EmptyCheck);
    }
    var sh := LatestOpen(db.shifts, user.id, user.store);
    if sh.None? {
      return SaleRejected(NoOpenShift);
    }
    if elapsed >= ShiftDurationSeconds(config) {
      CloseKeepsOneOpen(db.shifts, sh.value);
      db.shifts := CloseAt(db.shifts, sh.value);
      return SaleRejected(ShiftExpired);
    }
    r := RecordSale(db, user, user.store.value, sh.value + 1, req, config, today);
  }

  /** The part of `create_sale` after the shift checks: price the lines, check
      the stock, and write the sale. */
  method RecordSale(db: Database, user: Seller, store: int, shiftId: int, req: seq<RequestLine>, config: Config, today: int)
      returns (r: SaleOutcome)
    modifies db
    ensures db.warehouseStock == old(db.warehouseStock) && db.products == old(db.products) && db.employees == old(db.employees)
    ensures db.shifts == old(db.shifts)
    ensures var lines := SaleLines(req, old(db.products));
      if lines == [] || Shortage(old(db.storeStock), store, lines).Some? then
        r == SaleRejected(if lines == [] then EmptyCheck else OutOfStock(Shortage(old(db.storeStock), store, lines).value)) &&
        db.storeStock == old(db.storeStock) &&
        db.operations == old(db.operations) && db.notifications == old(db.notifications)
      else
        var after := DebitAll(old(db.storeStock), store, lines);
        r == SaleRecorded(|old(db.operations)| + 1, Totals(lines).revenue) &&
        db.storeStock == after &&
        db.operations == old(db.operations) + [SaleOperation(shiftId, user, store, today, lines)] &&
        db.notifications == old(db.notifications) + LowStockAlerts(after, store, lines, config.lowStockThreshold)
    ensures old(Consistent(db)) && DistinctLines(SaleLines(req, old(db.products))) ==> Consistent(db)
  {
    var lines, totals := PriceSale(req, db.products);
    if lines == [] {
      return SaleRejected(EmptyCheck);
    }
    var short := FindShortage(db.storeStock, store, lines);
    if short.Some? {
      return SaleRejected(OutOfStock(short.value));
    }
    var items, after := WriteSaleLines(db.storeStock, store, lines);
    var notices := CollectAlerts(after, store, lines, config.lowStockThreshold);
    var op := SaleOperation(shiftId, user, store, today, lines);
    SaleKeepsConsistent(db.storeStock, db.operations, store, lines, op);
    db.operations := db.operations + [op];
    db.storeStock := after;
    db.notifications := db.notifications + notices;
    r := SaleRecorded(|db.operations|, totals.revenue);
  }

  /** The invariant facts a recorded sale keeps. */
  lemma SaleKeepsConsistent(stock: Stock, ops: seq<Operation>, store: int, lines: seq<Line>, op: Operation)
    requires forall i :: 0 <= i < |lines| ==> lines[i].quantity > 0
    requires Shortage(stock, store, lines).None?
    requires op.kind == Sale && op.original.None? && op.items == Items(lines)
    requires Money(op.revenue, op.cost, op.profit) == Totals(lines)
    ensures NonNegative(stock) && DistinctLines(lines) ==> NonNegative(DebitAll(stock, store, lines))
    ensures ReturnsPointBack(ops) && ReturnsWithinSales(ops) ==>
      ReturnsPointBack(ops + [op]) && ReturnsWithinSales(ops + [op])
    ensures ProfitsConsistent(ops) ==> ProfitsConsistent(ops + [op])
  {
    if NonNegative(stock) && DistinctLines(lines) {
      SaleKeepsStockNonNegative(stock, store, lines);
    }
    if ReturnsPointBack(ops) && ReturnsWithinSales(ops) {
      AppendSaleKeeps(ops, op);
    }
    TotalsProfit(lines);
    assert (ops + [op])[|ops|] == op;
  }

  // ---------------------------------------------------------------- the rows of a sale

  /** A row of a sale as offered for return. */
  datatype ItemView = ItemView(product: int, quantity: int, alreadyReturned: int, remaining: int)

  /** Operation `id` exists, is a sale, and belongs to the caller's store. */
  predicate SaleOfStore(ops: seq<Operation>, id: int, store: Option<int>) {
    1 <= id <= |ops| && ops[id - 1].kind == Sale && Some(ops[id - 1].store) == store
  }

  function ViewOf(it: Item, ops: seq<Operation>, id: int): (v: ItemView)
    ensures v.product == it.product && v.quantity == it.quantity
    ensures v.alreadyReturned == ReturnedQty(ops, id, it.product)
    ensures v.remaining == Remaining(v.quantity, v.alreadyReturned)
  {
    var already := ReturnedQty(ops, id, it.product);
    ItemView(it.product, it.quantity, already, Remaining(it.quantity, already))
  }

  /** `operation_items`: the rows of one of the caller's sales, each with what
      has been returned of its product and what remains, or nothing for any
      other id. */
  method OperationItems(db: Database, user: Seller, id: int) returns (r: Option<seq<ItemView>>)
    ensures r.Some? <==> SaleOfStore(db.operations, id, user.store)
    ensures r.Some? ==>
      |r.value| == |db.operations[id - 1].items| &&
      forall k :: 0 <= k < |r.value| ==> r.value[k] == ViewOf(db.operations[id - 1].items[k], db.operations, id)
  {
    if !SaleOfStore(db.operations, id, user.store) {
      return None;
    }
    var items := db.operations[id - 1].items;
    var out: seq<ItemView> := [];
    var k := 0;
    while k < |items|
      invariant 0 <= k <= |items| && |out| == k
      invariant forall j :: 0 <= j < k ==> out[j] == ViewOf(items[j], db.operations, id)
    {
      var already := ReturnedQty(db.operations, id, items[k].product);
      out := out + [ItemView(items[k].product, items[k].quantity, already, Remaining(items[k].quantity, already))];
      k := k + 1;
    }
    r := Some(out);
  }

  /** Each product appears in at most one row. */
  predicate DistinctProducts(items: seq<Item>) {
    forall a, b :: 0 <= a < b < |items| ==> items[a].product != items[b].product
  }

  /** In a sale that names each product once, what is shown as returned plus
      what remains is the row's quantity. */
  lemma ViewsAddUp(ops: seq<Operation>, id: int, k: int)
    requires ReturnsWithinSales(ops)
    requires 1 <= id <= |ops| && ops[id - 1].kind == Sale
    requires 0 <= k < |ops[id - 1].items|
    requires DistinctProducts(ops[id - 1].items)
    ensures var v := ViewOf(ops[id - 1].items[k], ops, id);
      v.alreadyReturned + v.remaining == v.quantity
  {
    var items := ops[id - 1].items;
    var p := items[k].product;
    SoldMapSpec(items, p);
    assert SoldQty(items, p) == items[k].quantity;
    assert ReturnedQty(ops, id, p) <= SoldQty(items, p);
  }

  // ---------------------------------------------------------------- returns

  datatype ReturnError = MissingInput | SaleNotFound | ExceedsRemaining | NothingToReturn | ReturnNoShift | ReturnShiftExpired

  datatype ReturnOutcome = ReturnRecorded(returnId: int, total: int) | ReturnRejected(error: ReturnError)

  /** The operation row of a return. */
  function ReturnOperation(shiftId: int, user: Seller, store: int, today: int, original: int, lines: seq<Line>): (op: Operation)
    ensures op.kind == Return && op.original == Some(original) && op.items == Items(lines)
    ensures Money(op.revenue, op.cost, op.profit) == Totals(lines)
  {
    var t := Totals(lines);
    Operation(Return, shiftId, user.id, store, today, t.revenue, t.cost, t.profit, Some(original), Items(lines))
  }

  /** `create_return`. The request needs a truthy sale id and items, the sale
      must be one of the caller's store, every considered line must stay within
      what remains, and some line must be left. Then an open shift is needed;
      an expired one is closed and the return rejected. Lines whose product row
      is gone are skipped; if none is left nothing is written. Otherwise the
      return, its rows and the stock upserts are written together, and no
      notification is raised. */
  method CreateReturn(db: Database, user: Seller, original: Option<int>, req: seq<RequestLine>,
                      elapsed: int, config: Config, today: int) returns (r: ReturnOutcome)
    modifies db
    ensures db.warehouseStock == old(db.warehouseStock) && db.products == old(db.products) && db.employees == old(db.employees)
    ensures db.notifications == old(db.notifications)
    ensures var ops := old(db.operations);
      var sh := LatestOpen(old(db.shifts), user.id, user.store);
      if !Truthy(original) || req == [] || !SaleOfStore(ops, original.value, user.store) then
        r == ReturnRejected(if !Truthy(original) || req == [] then MissingInput else SaleNotFound) &&
        db.shifts == old(db.shifts) && db.storeStock == old(db.storeStock) && db.operations == ops
      else
        var wanted := ReturnWanted(req, SoldMap(ops[original.value - 1].items), ops, original.value);
        if wanted.None? || wanted.value == [] || sh.None? then
          r == ReturnRejected(if wanted.None? then ExceedsRemaining else if wanted.value == [] then NothingToReturn else ReturnNoShift) &&
          db.shifts == old(db.shifts) && db.storeStock == old(db.storeStock) && db.operations == ops
        else if Expired(elapsed, config) then
          r == ReturnRejected(ReturnShiftExpired) && db.shifts == CloseAt(old(db.shifts), sh.value) &&
          db.storeStock == old(db.storeStock) && db.operations == ops
        else
          var lines := PricedLines(wanted.value, old(db.products));
          if lines == [] then
            r == ReturnRejected(NothingToReturn) &&
            db.shifts == old(db.shifts) && db.storeStock == old(db.storeStock) && db.operations == ops
          else
            r == ReturnRecorded(|ops| + 1, Totals(lines).revenue) && db.shifts == old(db.shifts) &&
            db.storeStock == CreditAll(old(db.storeStock), user.store.value, lines) &&
            db.operations == ops + [ReturnOperation(sh.value + 1, user, user.store.value, today, original.value, lines)]
    ensures old(Consistent(db)) && DistinctRequest(req) ==> Consistent(db)
  {
    if !Truthy(original) || req == [] {
      return ReturnRejected(MissingInput);
    }
    var o := original.value;
    if !SaleOfStore(db.operations, o, user.store) {
      return ReturnRejected(SaleNotFound);
    }
    var sold := SoldOf(db.operations[o - 1].items);
    var wanted := ValidateReturn(req, sold, db.operations, o);
    if wanted.None? {
      return ReturnRejected(ExceedsRemaining);
    }
    if wanted.value == [] {
      return ReturnRejected(NothingToReturn);
    }
    var sh := LatestOpen(db.shifts, user.id, user.store);
    if sh.None? {
      return ReturnRejected(ReturnNoShift);
    }
    if elapsed >= ShiftDurationSeconds(config) {
      CloseKeepsOneOpen(db.shifts, sh.value);
      db.shifts := CloseAt(db.shifts, sh.value);
      return ReturnRejected(ReturnShiftExpired);
    }
    r := RecordReturn(db, user, user.store.value, sh.value + 1, o, req, wanted.value, today);
  }

  /** The part of `create_return` after the shift checks: price the validated
      lines, and write the return unless no line is left. */
  method RecordReturn(db: Database, user: Seller, store: int, shiftId: int, o: int, req: seq<RequestLine>,
                      ws: seq<Want>, today: int) returns (r: ReturnOutcome)
    requires 1 <= o <= |db.operations| && db.operations[o - 1].kind == Sale
    requires ReturnWanted(req, SoldMap(db.operations[o - 1].items), db.operations, o) == Some(ws)
    modifies db
    ensures db.warehouseStock == old(db.warehouseStock) && db.products == old(db.products) && db.employees == old(db.employees)
    ensures db.notifications == old(db.notifications) && db.shifts == old(db.shifts)
    ensures var lines := PricedLines(ws, old(db.products));
      if lines == [] then
        r == ReturnRejected(NothingToReturn) && db.storeStock == old(db.storeStock) && db.operations == old(db.operations)
      else
        r == ReturnRecorded(|old(db.operations)| + 1, Totals(lines).revenue) &&
        db.storeStock == CreditAll(old(db.storeStock), store, lines) &&
        db.operations == old(db.operations) + [ReturnOperation(shiftId, user, store, today, o, lines)]
    ensures old(Consistent(db)) && DistinctRequest(req) ==> Consistent(db)
  {
    var lines, totals := PriceReturn(ws, db.products);
    if lines == [] {
      return ReturnRejected(NothingToReturn);
    }
    var items, after := WriteReturnLines(db.storeStock, store, lines);
    var op := ReturnOperation(shiftId, user, store, today, o, lines);
    ReturnKeepsConsistent(db.storeStock, db.operations, store, req, o, db.products, op);
    db.operations := db.operations + [op];
    db.storeStock := after;
    r := ReturnRecorded(|db.operations|, totals.revenue);
  }

  /** The invariant facts a recorded return keeps. */
  lemma ReturnKeepsConsistent(stock: Stock, ops: seq<Operation>, store: int, req: seq<RequestLine>, o: int,
                              products: map<int, Product>, op: Operation)
    requires 1 <= o <= |ops| && ops[o - 1].kind == Sale
    requires ReturnWanted(req, SoldMap(ops[o - 1].items), ops, o).Some?
    requires var lines := PricedLines(ReturnWanted(req, SoldMap(ops[o - 1].items), ops, o).value, products);
      op.kind == Return && op.original == Some(o) && op.items == Items(lines) &&
      Money(op.revenue, op.cost, op.profit) == Totals(lines)
    ensures var lines := PricedLines(ReturnWanted(req, SoldMap(ops[o - 1].items), ops, o).value, products);
      NonNegative(stock) ==> NonNegative(CreditAll(stock, store, lines))
    ensures ReturnsPointBack(ops) && ReturnsWithinSales(ops) && DistinctRequest(req) ==>
      ReturnsPointBack(ops + [op]) && ReturnsWithinSales(ops + [op])
    ensures ProfitsConsistent(ops) ==> ProfitsConsistent(ops + [op])
  {
    var sold := SoldMap(ops[o - 1].items);
    var ws := ReturnWanted(req, sold, ops, o).value;
    var lines := PricedLines(ws, products);
    ReturnWantedSpec(req, sold, ops, o);
    PricedLinesPositive(ws, products);
    CreditAllQty(stock, store, lines, 0);
    if ReturnsPointBack(ops) && ReturnsWithinSales(ops) && DistinctRequest(req) {
      forall p ensures QtyOf(op.items, p) <= Remaining(SoldQty(ops[o - 1].items, p), ReturnedQty(ops, o, p)) {
        ReturnWithinRemaining(req, ops[o - 1].items, ops, o, products, p);
      }
      AppendReturnKeeps(ops, op, o);
    }
    TotalsProfit(lines);
    assert (ops + [op])[|ops|] == op;
  }

  // ---------------------------------------------------------------- stock movement

  datatype StockOutcome = Moved | InvalidInput | NoDestination | NotEnoughStock | Refused

  /** `create_receipt`: a positive quantity of a truthy product arrives at the
      store when a truthy store id is given, otherwise at the warehouse. A
      request naming neither is rejected; one whose only id is a falsy store id
      writes a NULL warehouse key, which the database refuses. */
  method CreateReceipt(db: Database, store: Option<int>, warehouse: Option<int>, product: Option<int>, quantity: int)
      returns (r: StockOutcome)
    modifies db
    ensures db.shifts == old(db.shifts) && db.operations == old(db.operations) && db.notifications == old(db.notifications)
    ensures db.products == old(db.products) && db.employees == old(db.employees)
    ensures (store.None? && warehouse.None?) || !Truthy(product) || quantity <= 0 ==>
      r == InvalidInput && db.storeStock == old(db.storeStock) && db.warehouseStock == old(db.warehouseStock)
    ensures r == Moved <==> !(store.None? && warehouse.None?) && Truthy(product) && quantity > 0 && (Truthy(store) || warehouse.Some?)
    ensures r == Moved && Truthy(store) ==>
      db.storeStock == Upsert(old(db.storeStock), (store.value, product.value), quantity) && db.warehouseStock == old(db.warehouseStock)
    ensures r == Moved && !Truthy(store) ==>
      db.warehouseStock == Upsert(old(db.warehouseStock), (warehouse.value, product.value), quantity) && db.storeStock == old(db.storeStock)
    ensures r != Moved ==> db.storeStock == old(db.storeStock) && db.warehouseStock == old(db.warehouseStock)
    ensures old(Consistent(db)) ==> Consistent(db)
  {
    if (store.None? && warehouse.None?) || !Truthy(product) || quantity <= 0 {
      return InvalidInput;
    }
    if Truthy(store) {
      db.storeStock := Upsert(db.storeStock, (store.value, product.value), quantity);
    } else if warehouse.Some? {
      db.warehouseStock := Upsert(db.warehouseStock, (warehouse.value, product.value), quantity);
    } else {
      return Refused;
    }
    UpsertKeepsNonNegative(old(db.storeStock), (if Truthy(store) then store.value else 0, product.value), quantity);
    UpsertKeepsNonNegative(old(db.warehouseStock), (if warehouse.Some? then warehouse.value else 0, product.value), quantity);
    r := Moved;
  }

  /** A positive upsert keeps a stock table non-negative. */
  lemma UpsertKeepsNonNegative(m: Stock, k: (int, int), q: int)
    requires q > 0
    ensures NonNegative(m) ==> NonNegative(Upsert(m, k, q))
  {
    if NonNegative(m) {
      forall k' | k' in Upsert(m, k, q) ensures Upsert(m, k, q)[k'] >= 0 {
        assert Qty(Upsert(m, k, q), k') == Upsert(m, k, q)[k'];
      }
    }
  }

  /** `create_distribution`: moves a positive quantity of a truthy product out
      of a truthy source warehouse into the store when a truthy store id is
      given, otherwise into the destination warehouse. It is rejected when the
      source holds less than the quantity (absent row = 0). A falsy store id
      with no warehouse id writes a NULL key, the database refuses the block,
      and the decrement is rolled back with it. */
  method CreateDistribution(db: Database, from: Option<int>, toStore: Option<int>, toWarehouse: Option<int>,
                            product: Option<int>, quantity: int) returns (r: StockOutcome)
    modifies db
    ensures db.shifts == old(db.shifts) && db.operations == old(db.operations) && db.notifications == old(db.notifications)
    ensures db.products == old(db.products) && db.employees == old(db.employees)
    ensures r == InvalidInput <==> !Truthy(from) || !Truthy(product) || quantity <= 0
    ensures r == NoDestination <==> Truthy(from) && Truthy(product) && quantity > 0 && toStore.None? && toWarehouse.None?
    ensures r == NotEnoughStock <==>
      Truthy(from) && Truthy(product) && quantity > 0 && !(toStore.None? && toWarehouse.None?) &&
      Qty(old(db.warehouseStock), (from.value, product.value)) < quantity
    ensures r == Moved ==>
      var source := Decrement(old(db.warehouseStock), (from.value, product.value), quantity);
      Qty(source, (from.value, product.value)) == Qty(old(db.warehouseStock), (from.value, product.value)) - quantity &&
      if Truthy(toStore) then
        db.warehouseStock == source && db.storeStock == Upsert(old(db.storeStock), (toStore.value, product.value), quantity)
      else
        toWarehouse.Some? &&
        db.warehouseStock == Upsert(source, (toWarehouse.value, product.value), quantity) && db.storeStock == old(db.storeStock)
    ensures r != Moved ==> db.storeStock == old(db.storeStock) && db.warehouseStock == old(db.warehouseStock)
    ensures r == Refused <==>
      Truthy(from) && Truthy(product) && quantity > 0 && toWarehouse.None? &&
      toStore.Some? && !Truthy(toStore) && Qty(old(db.warehouseStock), (from.value, product.value)) >= quantity
    ensures old(Consistent(db)) ==> Consistent(db)
  {
    if !Truthy(from) || !Truthy(product) || quantity <= 0 {
      return InvalidInput;
    }
    if toStore.None? && toWarehouse.None? {
      return NoDestination;
    }
    var key := (from.value, product.value);
    var avail := Qty(db.warehouseStock, key);
    if avail < quantity {
      return NotEnoughStock;
    }
    var source := Decrement(db.warehouseStock, key, quantity);
    DistributionKeepsNonNegative(db.warehouseStock, key, quantity);
    if Truthy(toStore) {
      UpsertKeepsNonNegative(db.storeStock, (toStore.value, product.value), quantity);
      db.warehouseStock := source;
      db.storeStock := Upsert(db.storeStock, (toStore.value, product.value), quantity);
    } else if toWarehouse.Some? {
      UpsertKeepsNonNegative(source, (toWarehouse.value, product.value), quantity);
      db.warehouseStock := Upsert(source, (toWarehouse.value, product.value), quantity);
    } else {
      return Refused;
    }
    r := Moved;
  }

  /** A covered decrement keeps the source row, and the whole table, non-negative. */
  lemma DistributionKeepsNonNegative(m: Stock, k: (int, int), q: int)
    requires q > 0 && Qty(m, k) >= q
    ensures k in m
    ensures NonNegative(m) ==> NonNegative(Decrement(m, k, q))
  {
    if NonNegative(m) {
      forall k' | k' in Decrement(m, k, q) ensures Decrement(m, k, q)[k'] >= 0 {
        assert Qty(Decrement(m, k, q), k') == Decrement(m, k, q)[k'];
      }
    }
  }

  // ---------------------------------------------------------------- phone

  /** White space holds no digit. */
  lemma NoDigitsInSpace(x: string, lo: nat, hi: nat)
    requires lo <= hi <= |x|
    requires forall i :: lo <= i < hi ==> PyStr.IsSpace(x[i])
    ensures DigitsOnly(x[lo..hi]) == []
  {
    var w := x[lo..hi];
    forall i | 0 <= i < |w| ensures !IsDigit(w[i]) {
      assert w[i] == x[lo + i];
    }
    DigitsOnlyOfDigits(w);
  }

  /** Stripping keeps the digits. */
  lemma DigitsOnlyStrip(x: string)
    ensures DigitsOnly(PyStr.Strip(x)) == DigitsOnly(x)
  {
    PyStr.StripSpec(x);
    var a := PyStr.LeadCount(x);
    var r := PyStr.Strip(x);
    var b := a + |r|;
    NoDigitsInSpace(x, 0, a);
    NoDigitsInSpace(x, b, |x|);
    assert x == x[0..a] + r + x[b..|x|];
    DigitsOnlyConcat(x[0..a] + r, x[b..|x|]);
    DigitsOnlyConcat(x[0..a], r);
  }

  /** `_validate_phone`: `None` (accepted) for blank text, otherwise an error
      when fewer than 10 digits are left once one leading 7 or 8 is dropped. */
  function ServerPhoneError(phone: Option<string>): (err: bool)
    ensures phone.None? ==> !err
    ensures phone.Some? ==>
      (err <==> PyStr.Strip(phone.value) != "" && |NationalDigits(DigitsOnly(phone.value))| < 10)
  {
    var s := if phone.Some? then PyStr.Strip(phone.value) else "";
    if s == "" then false
    else
      DigitsOnlyStrip(phone.value);
      |NationalDigits(DigitsOnly(s))| < 10
  }

  /** The server check and the page's `validatePhone` judge a phone alike,
      except that text that is not blank but has no national digit (such as
      "+7" or "abc") passes the page as an empty number and fails the server. */
  lemma PhoneChecksAgree(v: string)
    ensures ServerPhoneError(Some(v)) != !ValidatePhone(v).valid <==>
      PyStr.Strip(v) != "" && NationalDigits(DigitsOnly(v)) == ""
  {
    var n := NationalDigits(DigitsOnly(v));
    var server := ServerPhoneError(Some(v));
    var page := ValidatePhone(v);
    assert server <==> PyStr.Strip(v) != "" && |n| < 10;
    assert !page.valid <==> 0 < |n| < 10;
    if PyStr.Strip(v) == "" {
      PyStr.StripSpec(v);
      DigitsOnlyStrip(v);
      assert n == "";
    }
  }
}
