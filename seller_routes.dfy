/**
  The seller pages: the navigation bar, the main page (which opens a shift
  when none is open and closes an expired one) and the shift report page.
 */
module SellerRoutes {
  import opened Common
  import opened Tables
  import opened Shifts
  import opened ApiRoutes

  /** An entry of the seller navigation bar (the URL is the endpoint's route). */
  datatype NavItem = NavItem(endpoint: string, text: string, active: bool)

  /** The two entries of the bar, in order. */
  const NavEntries: seq<(string, string)> :=
    [("seller_routes.seller_main", "Главная страница"), ("seller_routes.sales", "Продажи")]

  /** `_seller_nav(active)`: the entries in order, each marked active exactly
      when its endpoint is `active`. */
  function SellerNav(active: Option<string>): (r: seq<NavItem>)
    ensures |r| == |NavEntries|
    ensures forall i :: 0 <= i < |r| ==>
      r[i].endpoint == NavEntries[i].0 && r[i].text == NavEntries[i].1 &&
      (r[i].active <==> active == Some(NavEntries[i].0))
  {
    seq(|NavEntries|, i requires 0 <= i < |NavEntries| =>
      NavItem(NavEntries[i].0, NavEntries[i].1, active == Some(NavEntries[i].0)))
  }

  /** The endpoints differ, so at most one entry is active, and exactly one
      when `active` names an entry. */
  lemma SellerNavOneActive(active: Option<string>)
    ensures var r := SellerNav(active);
      forall i, j :: 0 <= i < j < |r| ==> !(r[i].active && r[j].active)
    ensures var r := SellerNav(active);
      (exists i :: 0 <= i < |r| && r[i].active) <==>
        (active.Some? && exists i :: 0 <= i < |NavEntries| && NavEntries[i].0 == active.value)
  {
    var r := SellerNav(active);
    assert NavEntries[0].0 != NavEntries[1].0 by {
      assert |NavEntries[0].0| != |NavEntries[1].0|;
    }
    if active.Some? && exists i :: 0 <= i < |NavEntries| && NavEntries[i].0 == active.value {
      var i :| 0 <= i < |NavEntries| && NavEntries[i].0 == active.value;
      assert r[i].active;
    }
  }

  /** The shift shown on the main page: its id and whole hours worked. */
  datatype ShiftInfo = ShiftInfo(shiftId: int, workHours: int)

  datatype SellerPage = MainPage(shift: Option<ShiftInfo>) | RedirectToReport(shiftId: int)

  /** `seller_main`: inserts an open shift for the caller's pair when none is
      open, then looks up the latest open shift; an expired one (with the same
      duration rule as the API) is closed and the caller sent to its report,
      otherwise the page shows it with the whole hours worked. A caller with a
      store always sees a shift; for a caller without one the lookup finds
      none, so every visit inserts another row. `elapsed` is the age of the
      shift the lookup finds; a shift this visit inserts has age 0, so it is
      shown unless the configured duration is not positive. */
  method SellerMain(db: Database, user: Seller, elapsed: int, config: Config) returns (page: SellerPage)
    requires LatestOpen(db.shifts, user.id, user.store).None? ==> elapsed == 0
    modifies db
    ensures db.storeStock == old(db.storeStock) && db.warehouseStock == old(db.warehouseStock)
    ensures db.operations == old(db.operations) && db.notifications == old(db.notifications)
    ensures db.products == old(db.products) && db.employees == old(db.employees)
    ensures var withShift := OpenIfMissing(old(db.shifts), user.id, user.store);
      var sh := LatestOpen(withShift, user.id, user.store);
      if sh.None? then page == MainPage(None) && db.shifts == withShift
      else if Expired(elapsed, config) then page == RedirectToReport(sh.value + 1) && db.shifts == CloseAt(withShift, sh.value)
      else page == MainPage(Some(ShiftInfo(sh.value + 1, elapsed / 3600))) && db.shifts == withShift
    ensures user.store.Some? ==> page != MainPage(None)
    ensures LatestOpen(old(db.shifts), user.id, user.store).None? && user.store.Some? && ShiftDurationSeconds(config) > 0 ==>
      page == MainPage(Some(ShiftInfo(|old(db.shifts)| + 1, 0)))
    ensures page.MainPage? && page.shift.Some? ==>
      page.shift.value.workHours * 3600 <= elapsed < page.shift.value.workHours * 3600 + 3600
    ensures old(Consistent(db)) ==> Consistent(db)
  {
    OpenIfMissingSpec(db.shifts, user.id, user.store);
    OpenIfMissingKeepsOneOpen(db.shifts, user.id, user.store);
    var existing := LatestOpen(db.shifts, user.id, user.store);
    if existing.None? {
      db.shifts := db.shifts + [Shift(user.id, user.store, true)];
    }
    var sh := LatestOpen(db.shifts, user.id, user.store);
    if sh.None? {
      return MainPage(None);
    }
    if elapsed >= ShiftDurationSeconds(config) {
      CloseKeepsOneOpen(db.shifts, sh.value);
      db.shifts := CloseAt(db.shifts, sh.value);
      return RedirectToReport(sh.value + 1);
    }
    page := MainPage(Some(ShiftInfo(sh.value + 1, elapsed / 3600)));
  }

  datatype ReportPage = ShowReport(shiftId: int) | RedirectToLogin

  /** `shift_report`: a missing, non-integer or zero `shift_id` sends the
      caller to the login page; any other id is shown. */
  function ShiftReportPage(shiftId: Option<int>): (r: ReportPage)
    ensures r == RedirectToLogin <==> !Truthy(shiftId)
    ensures r.ShowReport? ==> shiftId == Some(r.shiftId) && r.shiftId != 0
  {
    if Truthy(shiftId) then ShowReport(shiftId.value) else RedirectToLogin
  }
}
