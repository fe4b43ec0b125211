/**
 * OvertimeController: the paged overtime listing, the hours rule
 * (CalculateOTHours and the MaxOTHours cap) and the Create, Edit and Delete
 * actions on the Overtime table.
 */
module OvertimeController {
  import opened Wrappers
  import opened Entities
  import opened Tables
  import opened Listing
  import opened Results
  import opened Database

  const TicksPerMinute: int := 600_000_000
  const TicksPerHour: int := 60 * TicksPerMinute

  /** The most actual overtime hours one entry may record. */
  const MaxOTHours: real := 3.0

  const CapExceeded := ModelError("ActualOTHours", "Maximum OT hours is 3 hours")

  /** The span from start to finish in hours, as an exact fraction; negative
      when finish is before start. */
  function CalculateOTHours(timeStart: Ticks, timeFinish: Ticks): (hours: real)
    ensures hours * TicksPerHour as real == (timeFinish - timeStart) as real
  {
    (timeFinish - timeStart) as real / TicksPerHour as real
  }

  /** The cap in hours is the cap of three hours of ticks: exactly three hours passes. */
  lemma CapInTicks(timeStart: Ticks, timeFinish: Ticks)
    ensures CalculateOTHours(timeStart, timeFinish) <= MaxOTHours <==> timeFinish - timeStart <= 3 * TicksPerHour
  {
    var h := CalculateOTHours(timeStart, timeFinish);
    assert h * TicksPerHour as real == (timeFinish - timeStart) as real;
  }

  /** Two hours fifteen minutes is 2.25 hours, within the cap. */
  lemma TwoHoursFifteenMinutes(t: Ticks)
    ensures CalculateOTHours(t, t + 2 * TicksPerHour + 15 * TicksPerMinute) == 2.25
    ensures 2.0 * CalculateOTHours(t, t + 2 * TicksPerHour + 15 * TicksPerMinute) == 4.5
  {
    var h := CalculateOTHours(t, t + 2 * TicksPerHour + 15 * TicksPerMinute);
    assert h * 36_000_000_000 as real == 81_000_000_000 as real;
  }

  /** Three hours and one minute is over the cap. */
  lemma ThreeHoursOneMinuteOverCap(t: Ticks)
    ensures CalculateOTHours(t, t + 3 * TicksPerHour + TicksPerMinute) > MaxOTHours
  {
    CapInTicks(t, t + 3 * TicksPerHour + TicksPerMinute);
  }

  /** A finish before the start is not rejected: its negative hours pass the cap. */
  lemma FinishBeforeStartPassesCap(timeStart: Ticks, timeFinish: Ticks)
    requires timeFinish < timeStart
    ensures CalculateOTHours(timeStart, timeFinish) < 0.0
    ensures CalculateOTHours(timeStart, timeFinish) <= MaxOTHours
  {
    var h := CalculateOTHours(timeStart, timeFinish);
    assert h * TicksPerHour as real < 0.0;
  }

  /** What every stored entry satisfies: its actual hours are its start-to-finish
      span, within the cap, and its calculated hours are twice the actual hours. */
  predicate HoursConsistent(o: Overtime)
  {
    && o.actualOTHours == CalculateOTHours(o.timeStart, o.timeFinish)
    && o.actualOTHours <= MaxOTHours
    && o.calculatedOTHours == 2.0 * o.actualOTHours
  }

  predicate HoursInvariant(overtimes: seq<Overtime>)
  {
    forall k :: 0 <= k < |overtimes| ==> HoursConsistent(overtimes[k])
  }

  function OvertimeDate(o: Overtime): int { o.overtimeDate }

  /** GET Overtime/Index: page `page ?? 1` of the entries, latest overtime date first. */
  function Index(db: Context, page: Option<int>): (r: seq<Overtime>)
    reads db
    requires PageNumber(page) >= 1
    ensures |r| <= PageSize
    ensures |r| == if FirstRow(PageNumber(page)) >= |db.overtimes| then 0
                   else Min(PageSize, |db.overtimes| - FirstRow(PageNumber(page)))
    ensures SortedDesc(r, OvertimeDate)
    ensures multiset(r) <= multiset(db.overtimes)
    ensures forall i :: 0 <= i < |r| ==>
              && FirstRow(PageNumber(page)) + i < |db.overtimes|
              && r[i] == SortDesc(db.overtimes, OvertimeDate)[FirstRow(PageNumber(page)) + i]
  {
    SortedPage(db.overtimes, OvertimeDate, PageNumber(page));
    Page(SortDesc(db.overtimes, OvertimeDate), PageNumber(page))
  }

  /** The row Create stores for a submission within the cap. */
  function NewRow(overtime: Overtime, now: Ticks, newId: int): (r: Overtime)
    requires CalculateOTHours(overtime.timeStart, overtime.timeFinish) <= MaxOTHours
    ensures HoursConsistent(r)
    ensures r.id == newId && r.createdDate == now
    ensures r.employeeId == overtime.employeeId && r.overtimeDate == overtime.overtimeDate
    ensures r.timeStart == overtime.timeStart && r.timeFinish == overtime.timeFinish
    ensures r.description == overtime.description && r.modifiedDate == overtime.modifiedDate
  {
    var hours := CalculateOTHours(overtime.timeStart, overtime.timeFinish);
    overtime.(id := newId, actualOTHours := hours, calculatedOTHours := hours * 2.0, createdDate := now)
  }

  /** The stored entry after a successful Edit: employee, date, start, finish and
      description from the submission, hours recomputed from its start and finish,
      ModifiedDate now, and nothing else changes. */
  function Overwrite(existing: Overtime, submitted: Overtime, now: Ticks): (r: Overtime)
    requires CalculateOTHours(submitted.timeStart, submitted.timeFinish) <= MaxOTHours
    ensures HoursConsistent(r)
    ensures r.employeeId == submitted.employeeId && r.overtimeDate == submitted.overtimeDate
    ensures r.timeStart == submitted.timeStart && r.timeFinish == submitted.timeFinish
    ensures r.description == submitted.description
    ensures r.id == existing.id && r.createdDate == existing.createdDate
    ensures r.modifiedDate == Some(now)
  {
    var hours := CalculateOTHours(submitted.timeStart, submitted.timeFinish);
    existing.(employeeId := submitted.employeeId, overtimeDate := submitted.overtimeDate,
              timeStart := submitted.timeStart, timeFinish := submitted.timeFinish,
              actualOTHours := hours, calculatedOTHours := hours * 2.0,
              description := submitted.description, modifiedDate := Some(now))
  }

  /** Editing a stored entry with its own values changes only ModifiedDate:
      the created row and the edited row agree everywhere else. */
  lemma EditUnchangedRoundTrip(overtime: Overtime, created: Ticks, newId: int, now: Ticks)
    requires CalculateOTHours(overtime.timeStart, overtime.timeFinish) <= MaxOTHours
    ensures var row := NewRow(overtime, created, newId);
            Overwrite(row, row, now) == row.(modifiedDate := Some(now))
  {
  }

  /** POST Overtime/Create. */
  method Create(db: Context, overtime: Overtime, now: Ticks, newId: int) returns (r: ActionResult)
    requires db.Valid() && HoursInvariant(db.overtimes)
    requires Find(db.overtimes, OvertimeId, newId).None?
    modifies db
    ensures db.Valid() && HoursInvariant(db.overtimes)
    ensures db.departments == old(db.departments) && db.employees == old(db.employees)
    ensures !ValidOvertime(overtime) ==>
              r == FormView(OvertimeErrors(overtime)) && db.overtimes == old(db.overtimes)
    ensures ValidOvertime(overtime) && CalculateOTHours(overtime.timeStart, overtime.timeFinish) > MaxOTHours ==>
              r == FormView([CapExceeded]) && db.overtimes == old(db.overtimes)
    ensures ValidOvertime(overtime) && CalculateOTHours(overtime.timeStart, overtime.timeFinish) <= MaxOTHours ==>
              r == RedirectToIndex && db.overtimes == old(db.overtimes) + [NewRow(overtime, now, newId)]
  {
    if !ValidOvertime(overtime) {
      return FormView(OvertimeErrors(overtime));
    }
    var actualOTHours := CalculateOTHours(overtime.timeStart, overtime.timeFinish);
    if actualOTHours > MaxOTHours {
      return FormView([CapExceeded]);
    }
    var row := NewRow(overtime, now, newId);
    AppendKeepsDistinct(db.overtimes, OvertimeId, row);
    db.overtimes := db.overtimes + [row];
    r := RedirectToIndex;
  }

  /** POST Overtime/Edit. The cap is checked before the lookup, and an id that
      is not in the table re-displays the form without an error. */
  method Edit(db: Context, overtime: Overtime, now: Ticks) returns (r: ActionResult)
    requires db.Valid() && HoursInvariant(db.overtimes)
    modifies db
    ensures db.Valid() && HoursInvariant(db.overtimes)
    ensures db.departments == old(db.departments) && db.employees == old(db.employees)
    ensures !ValidOvertime(overtime) ==>
              r == FormView(OvertimeErrors(overtime)) && db.overtimes == old(db.overtimes)
    ensures ValidOvertime(overtime) && CalculateOTHours(overtime.timeStart, overtime.timeFinish) > MaxOTHours ==>
              r == FormView([CapExceeded]) && db.overtimes == old(db.overtimes)
    ensures ValidOvertime(overtime) && CalculateOTHours(overtime.timeStart, overtime.timeFinish) <= MaxOTHours ==>
              match Find(old(db.overtimes), OvertimeId, overtime.id)
              case None => r == FormView([]) && db.overtimes == old(db.overtimes)
              case Some(i) =>
                r == RedirectToIndex &&
                db.overtimes == old(db.overtimes)[i := Overwrite(old(db.overtimes)[i], overtime, now)]
  {
    if !ValidOvertime(overtime) {
      return FormView(OvertimeErrors(overtime));
    }
    var actualOTHours := CalculateOTHours(overtime.timeStart, overtime.timeFinish);
    if actualOTHours > MaxOTHours {
      return FormView([CapExceeded]);
    }
    var found := Find(db.overtimes, OvertimeId, overtime.id);
    if found.None? {
      return FormView([]);
    }
    var i := found.value;
    var row := Overwrite(db.overtimes[i], overtime, now);
    ReplaceKeepsDistinct(db.overtimes, OvertimeId, i, row);
    db.overtimes := db.overtimes[i := row];
    r := RedirectToIndex;
  }

  /** POST Overtime/Delete: no referential guard, nothing depends on an entry. */
  method Delete(db: Context, id: int) returns (r: ActionResult)
    requires db.Valid() && HoursInvariant(db.overtimes)
    modifies db
    ensures db.Valid() && HoursInvariant(db.overtimes)
    ensures db.departments == old(db.departments) && db.employees == old(db.employees)
    ensures Find(old(db.overtimes), OvertimeId, id).None? ==>
              r == Json(false, "Overtime not found") && db.overtimes == old(db.overtimes)
    ensures Find(old(db.overtimes), OvertimeId, id).Some? ==>
              r == Json(true, "Overtime deleted successfully") &&
              db.overtimes == RemoveAt(old(db.overtimes), Find(old(db.overtimes), OvertimeId, id).value)
    ensures r.Json? && r.success ==>
              forall o :: o in db.overtimes <==> o in old(db.overtimes) && o.id != id
  {
    var found := Find(db.overtimes, OvertimeId, id);
    if found.None? {
      return Json(false, "Overtime not found");
    }
    var i := found.value;
    RemoveKeepsDistinct(db.overtimes, OvertimeId, i);
    RemoveExactlyKey(db.overtimes, OvertimeId, i);
    db.overtimes := RemoveAt(db.overtimes, i);
    r := Json(true, "Overtime deleted successfully");
  }
}
