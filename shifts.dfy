/**
  The shift rules shared by the API, the seller pages and login/logout: the
  configured duration, inclusive expiry, the lookup of the most recent open
  shift of an (employee, store) pair, opening a shift only when none is open,
  and closing one.

  Store ids compare with SQL semantics: a NULL store matches nothing, so the
  pair of a seller-role employee without a store never finds an open shift.
 */
module Shifts {
  import opened Common
  import opened Tables

  /** `_shift_duration_seconds`: the configured seconds if set, else hours x 3600. */
  function ShiftDurationSeconds(c: Config): (d: int)
    ensures c.shiftDurationSeconds.Some? ==> d == c.shiftDurationSeconds.value
    ensures c.shiftDurationSeconds.None? ==> d == c.shiftDurationHours * 3600
  {
    if c.shiftDurationSeconds.Some? then c.shiftDurationSeconds.value else c.shiftDurationHours * 3600
  }

  /** A shift whose elapsed whole seconds reach the duration is expired. */
  predicate Expired(elapsed: int, c: Config) {
    elapsed >= ShiftDurationSeconds(c)
  }

  /** The boundary is inclusive: exactly the duration is expired, one second less is not. */
  lemma ExpiryInclusive(c: Config)
    ensures Expired(ShiftDurationSeconds(c), c)
    ensures !Expired(ShiftDurationSeconds(c) - 1, c)
    ensures forall e :: Expired(e, c) <==> e >= ShiftDurationSeconds(c)
  {
  }

  /** `employee_id = e AND store_id = s AND shift_end IS NULL`. */
  predicate OpenFor(sh: Shift, employee: int, store: Option<int>) {
    sh.open && sh.employee == employee && store.Some? && sh.store == store
  }

  /** The position of the most recent open shift of the pair (`ORDER BY
      shift_start DESC LIMIT 1`; shifts start in insertion order). */
  function LatestOpen(shifts: seq<Shift>, employee: int, store: Option<int>): (r: Option<nat>)
    ensures r.Some? ==> r.value < |shifts| && OpenFor(shifts[r.value], employee, store)
    ensures r.Some? ==> forall j :: r.value < j < |shifts| ==> !OpenFor(shifts[j], employee, store)
    ensures r.None? ==> forall j :: 0 <= j < |shifts| ==> !OpenFor(shifts[j], employee, store)
  {
    if shifts == [] then None
    else if OpenFor(shifts[|shifts| - 1], employee, store) then Some(|shifts| - 1)
    else LatestOpen(shifts[..|shifts| - 1], employee, store)
  }

  /** At most one open shift per (employee, store) pair with a store. */
  predicate OneOpenPerPair(shifts: seq<Shift>) {
    forall i, j :: 0 <= i < j < |shifts| && OpenFor(shifts[i], shifts[i].employee, shifts[i].store)
      ==> !OpenFor(shifts[j], shifts[i].employee, shifts[i].store)
  }

  /** Under the invariant the open shift of a pair is unique, so any lookup of
      "an open shift" finds the one `LatestOpen` finds. */
  lemma OpenShiftUnique(shifts: seq<Shift>, employee: int, store: Option<int>, i: nat)
    requires OneOpenPerPair(shifts)
    requires i < |shifts| && OpenFor(shifts[i], employee, store)
    ensures LatestOpen(shifts, employee, store) == Some(i)
  {
  }

  /** `UPDATE shifts SET shift_end = ..., status = 'closed' WHERE id_shift = ...`. */
  function CloseAt(shifts: seq<Shift>, i: nat): (r: seq<Shift>)
    requires i < |shifts|
    ensures |r| == |shifts| && !r[i].open
    ensures r[i].employee == shifts[i].employee && r[i].store == shifts[i].store
    ensures forall j :: 0 <= j < |shifts| && j != i ==> r[j] == shifts[j]
  {
    shifts[i := shifts[i].(open := false)]
  }

  /** Closing a shift keeps at most one open shift per pair. */
  lemma CloseKeepsOneOpen(shifts: seq<Shift>, i: nat)
    requires i < |shifts|
    ensures OneOpenPerPair(shifts) ==> OneOpenPerPair(CloseAt(shifts, i))
  {
    if OneOpenPerPair(shifts) {
      var r := CloseAt(shifts, i);
      forall a, b | 0 <= a < b < |r| && OpenFor(r[a], r[a].employee, r[a].store)
        ensures !OpenFor(r[b], r[a].employee, r[a].store)
      {
        assert a != i;
        assert OpenFor(shifts[a], shifts[a].employee, shifts[a].store);
      }
    }
  }

  /** After closing, the pair's lookup no longer finds the closed shift. */
  lemma CloseLatestLeavesNone(shifts: seq<Shift>, employee: int, store: Option<int>)
    requires OneOpenPerPair(shifts)
    requires LatestOpen(shifts, employee, store).Some?
    ensures LatestOpen(CloseAt(shifts, LatestOpen(shifts, employee, store).value), employee, store).None?
  {
    var i := LatestOpen(shifts, employee, store).value;
    var r := CloseAt(shifts, i);
    forall j | 0 <= j < |r| ensures !OpenFor(r[j], employee, store) {
      if j < i {
        assert !OpenFor(shifts[j], employee, store);
      }
    }
  }

  /** Insert an open shift for the pair only when the lookup finds none. */
  function OpenIfMissing(shifts: seq<Shift>, employee: int, store: Option<int>): seq<Shift>
  {
    if LatestOpen(shifts, employee, store).Some? then shifts
    else shifts + [Shift(employee, store, true)]
  }

  /** Opening is idempotent for a pair with a store, afterwards the pair has an
      open shift, and at most one new row is ever added. */
  lemma OpenIfMissingSpec(shifts: seq<Shift>, employee: int, store: Option<int>)
    ensures var r := OpenIfMissing(shifts, employee, store);
      |shifts| <= |r| <= |shifts| + 1 && r[..|shifts|] == shifts
    ensures store.Some? ==> LatestOpen(OpenIfMissing(shifts, employee, store), employee, store).Some?
    ensures store.Some? ==>
      OpenIfMissing(OpenIfMissing(shifts, employee, store), employee, store) == OpenIfMissing(shifts, employee, store)
  {
    var r := OpenIfMissing(shifts, employee, store);
    if store.Some? && LatestOpen(shifts, employee, store).None? {
      assert OpenFor(r[|shifts|], employee, store);
    }
  }

  /** Opening keeps at most one open shift per pair. */
  lemma OpenIfMissingKeepsOneOpen(shifts: seq<Shift>, employee: int, store: Option<int>)
    ensures OneOpenPerPair(shifts) ==> OneOpenPerPair(OpenIfMissing(shifts, employee, store))
  {
    var r := OpenIfMissing(shifts, employee, store);
    if OneOpenPerPair(shifts) && |r| > |shifts| {
      var n := |shifts|;
      forall a, b | 0 <= a < b < |r| && OpenFor(r[a], r[a].employee, r[a].store)
        ensures !OpenFor(r[b], r[a].employee, r[a].store)
      {
        if b == n {
          assert r[a] == shifts[a];
          assert !OpenFor(shifts[a], employee, store);
        } else {
          assert r[a] == shifts[a] && r[b] == shifts[b];
        }
      }
    }
  }

  /** The work time shown for an open shift: whole hours, then whole minutes of the rest. */
  function WorkTime(elapsed: int): (t: (int, int))
    ensures 0 <= t.1 < 60
    ensures t.0 * 3600 + t.1 * 60 <= elapsed < t.0 * 3600 + t.1 * 60 + 60
  {
    (elapsed / 3600, (elapsed % 3600) / 60)
  }
}
