/**
  Report netting: the summary over an optional inclusive date range and the
  report of one shift both add up the stored totals of the sales, add up those
  of the returns, and subtract.
 */
module Reports {
  import opened Common
  import opened Tables

  /** Which operations a report reads: those whose day lies within the
      optional inclusive bounds, or those of one shift. */
  datatype Selector = ByDays(from: Option<int>, to: Option<int>) | ByShift(shift: int)

  predicate Selected(op: Operation, sel: Selector) {
    match sel
    case ByDays(from, to) => (from.None? || op.day >= from.value) && (to.None? || op.day <= to.value)
    case ByShift(s) => op.shift == s
  }

  function OpMoney(op: Operation): Money {
    Money(op.revenue, op.cost, op.profit)
  }

  /** `COALESCE(SUM(...), 0)` over the selected operations of one type. */
  function KindTotal(ops: seq<Operation>, kind: OpKind, sel: Selector): Money
  {
    if ops == [] then Money(0, 0, 0)
    else
      var op := ops[|ops| - 1];
      KindTotal(ops[..|ops| - 1], kind, sel).Plus(if op.kind == kind && Selected(op, sel) then OpMoney(op) else Money(0, 0, 0))
  }

  /** Sales minus returns. */
  function Net(ops: seq<Operation>, sel: Selector): Money
  {
    KindTotal(ops, Sale, sel).Minus(KindTotal(ops, Return, sel))
  }

  /** The independent reading: one pass that adds a selected sale and subtracts
      a selected return. */
  function SignedSum(ops: seq<Operation>, sel: Selector): Money
  {
    if ops == [] then Money(0, 0, 0)
    else
      var op := ops[|ops| - 1];
      var rest := SignedSum(ops[..|ops| - 1], sel);
      if !Selected(op, sel) then rest
      else if op.kind == Sale then rest.Plus(OpMoney(op))
      else rest.Minus(OpMoney(op))
  }

  /** The two readings agree. */
  lemma {:induction false} NetIsSignedSum(ops: seq<Operation>, sel: Selector)
    ensures Net(ops, sel) == SignedSum(ops, sel)
  {
    if ops != [] {
      NetIsSignedSum(ops[..|ops| - 1], sel);
    }
  }

  /** Recording an operation moves the net of every report that selects it by
      exactly its stored totals, up for a sale and down for a return, and leaves
      every other report as it was. */
  lemma NetAppend(ops: seq<Operation>, op: Operation, sel: Selector)
    ensures Net(ops + [op], sel) ==
      if !Selected(op, sel) then Net(ops, sel)
      else if op.kind == Sale then Net(ops, sel).Plus(OpMoney(op))
      else Net(ops, sel).Minus(OpMoney(op))
  {
    assert (ops + [op])[..|ops|] == ops;
  }

  /** If every operation's profit is its revenue minus its cost, so is the net. */
  lemma {:induction false} NetProfit(ops: seq<Operation>, sel: Selector)
    requires forall i :: 0 <= i < |ops| ==> ops[i].profit == ops[i].revenue - ops[i].cost
    ensures Net(ops, sel).profit == Net(ops, sel).revenue - Net(ops, sel).cost
  {
    if ops != [] {
      var n := |ops| - 1;
      assert forall i :: 0 <= i < n ==> ops[..n][i] == ops[i];
      NetProfit(ops[..n], sel);
    }
  }

  /** `profit / rev * 100 if rev else 0`, before percent rounding. */
  function Margin(net: Money): (m: real)
    ensures net.revenue == 0 ==> m == 0.0
    ensures net.revenue != 0 ==> m * (net.revenue as real) == (net.profit as real) * 100.0
  {
    if net.revenue == 0 then 0.0 else (net.profit as real) / (net.revenue as real) * 100.0
  }

  /** The summary report: net totals, margin, and the sale and return revenues. */
  datatype Summary = Summary(net: Money, marginPercent: real, salesRevenue: int, returnsRevenue: int)

  /** `report_summary`: over the operations whose day lies within the optional
      inclusive bounds, the net is sales minus returns, which is the signed sum
      of the selected operations; the margin is taken of that net, and the sale
      and return revenues are reported separately. */
  function ReportSummary(ops: seq<Operation>, from: Option<int>, to: Option<int>): (r: Summary)
    ensures r.net == SignedSum(ops, ByDays(from, to)) && r.marginPercent == Margin(r.net)
    ensures r.salesRevenue == KindTotal(ops, Sale, ByDays(from, to)).revenue
    ensures r.returnsRevenue == KindTotal(ops, Return, ByDays(from, to)).revenue
    ensures r.net.revenue == r.salesRevenue - r.returnsRevenue
  {
    NetIsSignedSum(ops, ByDays(from, to));
    var sel := ByDays(from, to);
    var net := Net(ops, sel);
    Summary(net, Margin(net), KindTotal(ops, Sale, sel).revenue, KindTotal(ops, Return, sel).revenue)
  }

  /** An entry of a shift report's list. */
  datatype Entry = Entry(id: int, kind: OpKind, money: Money, original: Option<int>)

  /** The operations of a shift, in recording order, with their ids. */
  function ShiftEntries(ops: seq<Operation>, shift: int): seq<Entry>
  {
    if ops == [] then []
    else
      var op := ops[|ops| - 1];
      ShiftEntries(ops[..|ops| - 1], shift) +
        (if op.shift == shift then [Entry(|ops|, op.kind, OpMoney(op), op.original)] else [])
  }

  /** An id is listed exactly when its operation belongs to the shift, and the
      entry carries that operation's type, totals and original sale. */
  lemma {:induction false} ShiftEntriesSpec(ops: seq<Operation>, shift: int, e: Entry)
    ensures e in ShiftEntries(ops, shift) <==>
      1 <= e.id <= |ops| && ops[e.id - 1].shift == shift &&
      e == Entry(e.id, ops[e.id - 1].kind, OpMoney(ops[e.id - 1]), ops[e.id - 1].original)
  {
    if ops != [] {
      var n := |ops| - 1;
      ShiftEntriesSpec(ops[..n], shift, e);
      if 1 <= e.id <= n {
        assert ops[..n][e.id - 1] == ops[e.id - 1];
      }
    }
  }

  /** The shift report: absent for an unknown shift id, else its net and list. */
  datatype ShiftReport = ShiftReport(shift: int, net: Money, entries: seq<Entry>)

  function ShiftReportOf(shifts: seq<Shift>, ops: seq<Operation>, shift: int): (r: Option<ShiftReport>)
    ensures r.Some? <==> 1 <= shift <= |shifts|
    ensures r.Some? ==> r.value.net == SignedSum(ops, ByShift(shift))
  {
    NetIsSignedSum(ops, ByShift(shift));
    if 1 <= shift <= |shifts| then Some(ShiftReport(shift, Net(ops, ByShift(shift)), ShiftEntries(ops, shift)))
    else None
  }
}
